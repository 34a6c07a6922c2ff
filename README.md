# WordScramble round bookkeeping, in Dafny

A model of the round state kept by the single screen of the WordScramble app
(`ContentView.swift`). The screen holds three fields. `usedWords` lists the
accepted answers with the newest first. `rootWord` is the word of the round.
`newWord` is the text in the entry field. The screen has two operations:

- `addNewWord` lower-cases the typed text and trims whitespace and newlines
  from both ends. It ignores an answer that is then empty. Otherwise it
  inserts the answer at the front of `usedWords` and clears the field.
- `startGame` reads the bundled `start.txt` and splits it on `"\n"`. It
  picks a random line as the root word, falling back to `"silkworm"`. A
  missing or unreadable file stops the process.

Files:

- `text.dfy` (module `Text`): the string operations used from the platform
  library. These are the whitespace-and-newline set, lower-casing, trimming,
  splitting on one separator character, and joining as its inverse.
- `content_view.dfy` (module `WordScramble`): the state as a value
  (`RoundState`) and a class `ContentView` whose three fields and two
  methods mirror the Swift struct. `AfterAddNewWord` and `AfterStartGame`
  are the functions that specify the methods. The lemmas state what the
  code promises.
- `wrappers.dfy` (module `Wrappers`): `Option`, for Swift's optionals and
  `??`.

Modelling choices:

- Reading the file (the bundle lookup and `String(contentsOf:)`) is one
  input, `startWords: Option<string>`, where `None` means either step
  failed.
- `fatalError` becomes the outcome `Fatal("Could not load tart.txt from
  bundle")`, with the state left alone.
- The random source of `randomElement()` is a parameter `choice`. It picks
  element `choice % n` of a non-empty list, so every line can be picked.
- The code performs no word validation. Line 46 holds only a placeholder
  comment, so none is modelled. There is no check that a word is new,
  spellable from the root word, or a real word.
- A file that holds no text still yields one empty line, so it gives the
  root word `""` and is not fatal.

## Model

| member | source | states |
|---|---|---|
| WordScramble.ContentView.constructor | ContentView.swift:12-14 | a new screen has no used words, an empty root word and an empty entry field |
| WordScramble.ContentView.AddNewWord | ContentView.swift:42-51 | the new state is `AfterAddNewWord` of the old one: the normalised answer is put in front of the used words and the field cleared, or nothing changes when the answer is empty |
| WordScramble.ContentView.StartGame | ContentView.swift:53-69 | with the file's text the root word becomes a line of it (or "silkworm" when there are none) and `Started` is returned; without it the outcome is `Fatal` with the load-failure message and the state is unchanged |
| Text.ToLower | ContentView.swift:43 | an ASCII capital maps to its small letter (code point + 32); every other character is unchanged; no result is a capital |
| Text.Lowercased | ContentView.swift:43 | the result has the input's length, holds no capital letter, and agrees with the input character by character up to case |
| Text.Trimmed | ContentView.swift:43 | a non-empty result neither starts nor ends with whitespace (the characters of `Text.IsWhitespace`); the result is empty exactly when the whole input is whitespace |
| Text.TrimmedIsSlice | ContentView.swift:43 | the trimmed string is a slice of the input, and what is cut off before and after it is all whitespace |
| Text.TrimmedUnique | ContentView.swift:43 | any whitespace-bounded slice that neither starts nor ends with whitespace is the trimmed string, so trimming is fully determined by its specification |
| Text.TrimmedIdempotent | ContentView.swift:43 | trimming a trimmed string changes nothing |
| Text.LowercasedTrimmedCommute | ContentView.swift:43 | lower-casing then trimming equals trimming then lower-casing |
| Text.Components | ContentView.swift:59 | splitting always yields at least one piece, and no piece holds the separator |
| Text.ComponentsCount | ContentView.swift:59 | splitting yields exactly one piece more than there are separators in the text |
| Text.JoinedComponents | ContentView.swift:59 | joining the pieces with the separator gives back the original text |
| Text.ComponentsJoined | ContentView.swift:59 | splitting the join of a non-empty list of separator-free pieces gives back that list |
| Text.ComponentsTrailingSeparator | ContentView.swift:59 | when a text ends with the separator, its last piece is empty |
| WordScramble.RandomElement | ContentView.swift:61 | the pick is absent exactly for an empty list; a pick is an element of the list; each index below the length picks that element |
| WordScramble.Answer | ContentView.swift:43-44 | the answer `addNewWord` derives from the typed text (lower-cased, then trimmed) holds no capital letter and neither starts nor ends with whitespace; it is empty exactly when the typed text is all whitespace |
| WordScramble.AnswerIsLoweredTrim | ContentView.swift:43 | the answer is the lower-cased form of the trimmed text, and normalising an answer again leaves it unchanged |
| WordScramble.IgnoredWhenBlank | ContentView.swift:44 | for an all-whitespace entry, `addNewWord` changes nothing: the used words stay and the field is not cleared |
| WordScramble.AcceptedWhenNotBlank | ContentView.swift:43-50 | for any other entry, the used words grow by exactly one and begin with the non-empty answer; the old words follow in their old order, one place further on; the field becomes `""` and the root word stays |
| WordScramble.AddNewWordKeepsRoot | ContentView.swift:42-51 | `addNewWord` never changes the root word |
| WordScramble.SubmitStep | ContentView.swift:42-51 | one submission of typed text puts its answer, when non-empty, in front of the used words and keeps the root word |
| WordScramble.SubmitAllOrder | ContentView.swift:48 | after any series of submissions, the used words are the non-empty answers, newest first, in front of the earlier words; the root word is unchanged |
| WordScramble.ThreeSubmissions | ContentView.swift:48 | submitting non-blank w1, w2, w3 leaves `[a3, a2, a1]` in front of the earlier words, where each `ai` is the answer for `wi` |
| WordScramble.NoDuplicateCheck | ContentView.swift:42-51 | the same non-blank text submitted twice is stored twice |
| WordScramble.StartGamePicksLine | ContentView.swift:59-63 | after a successful read, the root word is a line of the file; the used words and the entry field are unchanged |
| WordScramble.EveryLineCanBeRoot | ContentView.swift:61 | every line of the file is the root word for some choice |
| WordScramble.FallbackUnreachable | ContentView.swift:59-61 | the split is never empty, so a pick always exists and the root word is "silkworm" only when that is a line of the file |
| WordScramble.EmptyRootPossible | ContentView.swift:59-61 | when the file ends with a newline, its last line is empty and can become the root word |
| WordScramble.WordListLines | ContentView.swift:59 | the file has one more line than it has newlines, no line holds a newline, and joining the lines with newlines gives back the file |

## Left out

- The SwiftUI view: `body`, the text field and list, the navigation title, the
  `onSubmit`/`onAppear` wiring, `withAnimation` and the preview. This is
  presentation only. `Submit` and `SubmitAll` stand for typing into the
  field and submitting it.
- Finding `start.txt` in the bundle and reading it. This is file I/O,
  replaced by the optional input `startWords`.
- Process termination by `fatalError`. It is modelled as the `Fatal`
  outcome, with no state change.
- The probability distribution of `randomElement()`. The model fixes only
  which elements can be chosen.
- Text.Lowercased: maps only the ASCII capitals. Full Unicode case
  mapping is platform behaviour not visible here; it can change a string's
  length, for example.
- Text.Trimmed: works on Unicode scalar values, not on grapheme clusters.
  Swift counts characters as grapheme clusters, so a combining mark after a
  space is not modelled.
- Text.Components: compares the separator with each Unicode scalar value.
  With a `"\r\n"` line ending, the model therefore keeps a `"\r"` at the
  end of each line. Whether the platform treats `"\r\n"` as one character
  here is not modelled.
- Word validation: the code has no check that an answer is new, can be
  spelled from the root word's letters, or is a real word, and it does not
  reject an empty word list. Line 46 is only a placeholder comment.
- Text.IsWhitespace: does not capture the platform's exact
  `whitespacesAndNewlines` table. It is built from the documented Unicode
  categories plus tab; a platform table from other Unicode data may differ
  (for example by U+180E or U+200B). `Text.Trimmed`, `WordScramble.Answer`
  and `WordScramble.IgnoredWhenBlank` depend on this predicate.
