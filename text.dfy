/** The string operations that `addNewWord` and `startGame` use from the
    platform library: `lowercased()`, `trimmingCharacters(in:
    .whitespacesAndNewlines)`, `components(separatedBy:)` and, as its
    inverse, `joined(separator:)`. Strings are sequences of Unicode scalar
    values. */
module Text {

  /** The characters trimmed as `whitespacesAndNewlines`, taken from the
      documented Unicode categories plus tab: character tabulation, the
      newlines U+000A to U+000D and U+0085, the space separators (general
      category Zs) and the line and paragraph separators U+2028 and U+2029.
      The platform's own table is not visible here and may differ. */
  predicate IsWhitespace(c: char) {
    var n := c as int;
    n == 0x09 || (0x0A <= n <= 0x0D) || n == 0x20 || n == 0x85 || n == 0xA0 ||
    n == 0x1680 || (0x2000 <= n <= 0x200A) || n == 0x2028 || n == 0x2029 ||
    n == 0x202F || n == 0x205F || n == 0x3000
  }

  /** Every character of `s` in the index range `lo..hi` is whitespace. */
  predicate WhitespaceBetween(s: string, lo: int, hi: int)
    requires 0 <= lo && hi <= |s|
  {
    forall m :: lo <= m < hi ==> IsWhitespace(s[m])
  }

  predicate AllWhitespace(s: string) {
    WhitespaceBetween(s, 0, |s|)
  }

  predicate IsUpper(c: char) {
    'A' <= c <= 'Z'
  }

  /** The lower-case mapping of one character, for the ASCII letters. */
  function ToLower(c: char): (r: char)
    ensures !IsUpper(r)
    ensures IsUpper(c) ==> r as int == c as int + 32
    ensures !IsUpper(c) ==> r == c
  {
    if IsUpper(c) then (c as int + 32) as char else c
  }

  /** `lowercased()`: the result has no upper-case letter and agrees with
      the input character by character up to case. */
  function Lowercased(s: string): (r: string)
    ensures |r| == |s|
    ensures forall k :: 0 <= k < |r| ==> !IsUpper(r[k])
    ensures forall k :: 0 <= k < |r| ==> ToLower(r[k]) == ToLower(s[k])
  {
    seq(|s|, k requires 0 <= k < |s| => ToLower(s[k]))
  }

  /** The index of the first character at or after `i` that is not
      whitespace, or `|s|` when there is none. */
  function SkipLeading(s: string, i: nat): (k: nat)
    requires i <= |s|
    ensures i <= k <= |s|
    ensures WhitespaceBetween(s, i, k)
    ensures k < |s| ==> !IsWhitespace(s[k])
    decreases |s| - i
  {
    if i < |s| && IsWhitespace(s[i]) then SkipLeading(s, i + 1) else i
  }

  /** The index just after the last character before `j`, and not before
      `lo`, that is not whitespace, or `lo` when there is none. */
  function SkipTrailing(s: string, lo: nat, j: nat): (k: nat)
    requires lo <= j <= |s|
    ensures lo <= k <= j
    ensures WhitespaceBetween(s, k, j)
    ensures lo < k ==> !IsWhitespace(s[k - 1])
    decreases j
  {
    if lo < j && IsWhitespace(s[j - 1]) then SkipTrailing(s, lo, j - 1) else j
  }

  /** Where the trimmed string starts and ends inside `s`. */
  function TrimStart(s: string): (i: nat)
    ensures i <= |s|
  {
    SkipLeading(s, 0)
  }

  function TrimEnd(s: string): (j: nat)
    ensures TrimStart(s) <= j <= |s|
  {
    SkipTrailing(s, TrimStart(s), |s|)
  }

  /** `trimmingCharacters(in: .whitespacesAndNewlines)`: the slice of `s`
      between its leading and its trailing whitespace. */
  function Trimmed(s: string): (r: string)
    ensures r != [] ==> !IsWhitespace(r[0]) && !IsWhitespace(r[|r| - 1])
    ensures r == [] <==> AllWhitespace(s)
  {
    var i, j := TrimStart(s), TrimEnd(s);
    s[i..j]
  }

  /** What is cut off on both sides of the trimmed string is whitespace. */
  lemma TrimmedIsSlice(s: string)
    ensures var i, j := TrimStart(s), TrimEnd(s);
            Trimmed(s) == s[i..j] && WhitespaceBetween(s, 0, i) && WhitespaceBetween(s, j, |s|)
  {
  }

  /** Trimming is determined by its specification: any slice of `s` that
      is bounded by whitespace on both sides and neither starts nor ends
      with whitespace is the trimmed string. */
  lemma TrimmedUnique(s: string, i: nat, j: nat)
    requires i <= j <= |s|
    requires WhitespaceBetween(s, 0, i) && WhitespaceBetween(s, j, |s|)
    requires i < j ==> !IsWhitespace(s[i]) && !IsWhitespace(s[j - 1])
    ensures Trimmed(s) == s[i..j]
  {
  }

  /** Trimming twice is the same as trimming once. */
  lemma TrimmedIdempotent(s: string)
    ensures Trimmed(Trimmed(s)) == Trimmed(s)
  {
    var r := Trimmed(s);
    TrimmedUnique(r, 0, |r|);
    assert r[0..|r|] == r;
  }

  /** ASCII lowercasing maps whitespace to whitespace and nothing else to
      whitespace, so it commutes with trimming: lowercasing first, as
      `addNewWord` does, gives the same answer as trimming first. */
  lemma LowercasedTrimmedCommute(s: string)
    ensures Trimmed(Lowercased(s)) == Lowercased(Trimmed(s))
  {
    var l := Lowercased(s);
    var i, j := TrimStart(s), TrimEnd(s);
    LowercasedKeepsWhitespace(s);
    assert WhitespaceBetween(l, 0, i) by {
      assert WhitespaceBetween(s, 0, i);
    }
    assert WhitespaceBetween(l, j, |l|) by {
      assert WhitespaceBetween(s, j, |s|);
    }
    TrimmedUnique(l, i, j);
    assert l[i..j] == Lowercased(s[i..j]);
  }

  /** Lower-casing keeps each character's whitespace status. */
  lemma LowercasedKeepsWhitespace(s: string)
    ensures forall m :: 0 <= m < |s| ==> (IsWhitespace(Lowercased(s)[m]) <==> IsWhitespace(s[m]))
  {
    forall m | 0 <= m < |s| ensures IsWhitespace(Lowercased(s)[m]) <==> IsWhitespace(s[m]) {
      assert Lowercased(s)[m] == ToLower(s[m]);
    }
  }

  /** The position of the first occurrence of `c` in `s`. */
  function IndexOf(s: string, c: char): (i: nat)
    requires c in s
    ensures i < |s| && s[i] == c && c !in s[..i]
    decreases |s|
  {
    if s[0] == c then 0
    else
      assert c in s[1..] by { assert s == [s[0]] + s[1..]; }
      var i := IndexOf(s[1..], c);
      assert s[..i + 1] == [s[0]] + s[1..][..i];
      i + 1
  }

  /** `components(separatedBy:)` with a one-character separator: the
      pieces between consecutive separators, including the empty ones
      before a leading, between adjacent and after a trailing separator.
      There is always at least one piece, and no piece holds the separator. */
  function Components(s: string, sep: char): (parts: seq<string>)
    ensures parts != []
    ensures forall k :: 0 <= k < |parts| ==> sep !in parts[k]
    decreases |s|
  {
    if sep !in s then [s]
    else
      var i := IndexOf(s, sep);
      [s[..i]] + Components(s[i + 1..], sep)
  }

  /** There is one piece more than there are separators. */
  lemma {:induction false} ComponentsCount(s: string, sep: char)
    ensures |Components(s, sep)| == multiset(s)[sep] + 1
    decreases |s|
  {
    if sep !in s {
      assert multiset(s)[sep] == 0;
    } else {
      var i := IndexOf(s, sep);
      ComponentsCount(s[i + 1..], sep);
      CountAround(s, i, sep);
    }
  }

  lemma CountAround(s: string, i: nat, c: char)
    requires i < |s| && s[i] == c && c !in s[..i]
    ensures multiset(s)[c] == multiset(s[i + 1..])[c] + 1
  {
    assert s == s[..i] + [c] + s[i + 1..];
    assert multiset(s) == multiset(s[..i]) + multiset{c} + multiset(s[i + 1..]);
    assert multiset(s[..i])[c] == 0;
  }

  /** `joined(separator:)` with a one-character separator. */
  function Joined(parts: seq<string>, sep: char): string
    decreases |parts|
  {
    if parts == [] then ""
    else if |parts| == 1 then parts[0]
    else parts[0] + [sep] + Joined(parts[1..], sep)
  }

  /** Joining the pieces with the separator gives back the text. */
  lemma {:induction false} JoinedComponents(s: string, sep: char)
    ensures Joined(Components(s, sep), sep) == s
    decreases |s|
  {
    if sep in s {
      var i := IndexOf(s, sep);
      var rest := Components(s[i + 1..], sep);
      JoinedComponents(s[i + 1..], sep);
      JoinedCons(s[..i], rest, sep);
      assert s == s[..i] + [sep] + s[i + 1..];
    }
  }

  lemma JoinedCons(p: string, ps: seq<string>, sep: char)
    requires ps != []
    ensures Joined([p] + ps, sep) == p + [sep] + Joined(ps, sep)
  {
    assert ([p] + ps)[1..] == ps;
  }

  /** Splitting a joined list of separator-free pieces gives back the list. */
  lemma {:induction false} ComponentsJoined(parts: seq<string>, sep: char)
    requires parts != []
    requires forall k :: 0 <= k < |parts| ==> sep !in parts[k]
    ensures Components(Joined(parts, sep), sep) == parts
    decreases |parts|
  {
    if |parts| > 1 {
      ComponentsJoined(parts[1..], sep);
      ComponentsPrefix(parts[0], Joined(parts[1..], sep), sep);
      assert parts == [parts[0]] + parts[1..];
    }
  }

  /** The first piece ends at the first separator. */
  lemma ComponentsPrefix(p: string, tail: string, sep: char)
    requires sep !in p
    ensures Components(p + [sep] + tail, sep) == [p] + Components(tail, sep)
  {
    var s := p + [sep] + tail;
    assert s[|p|] == sep;
    var i := IndexOf(s, sep);
    assert s[..i] == p && s[i + 1..] == tail;
  }

  /** A text that ends with the separator has an empty last piece. */
  lemma {:induction false} ComponentsTrailingSeparator(s: string, sep: char)
    requires s != [] && s[|s| - 1] == sep
    ensures var parts := Components(s, sep); parts[|parts| - 1] == ""
    decreases |s|
  {
    assert sep in s;
    var i := IndexOf(s, sep);
    var rest := s[i + 1..];
    if rest != [] {
      assert rest[|rest| - 1] == s[|s| - 1];
      ComponentsTrailingSeparator(rest, sep);
    }
  }
}
