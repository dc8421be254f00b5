/** The ECMAScript string primitives the decoders rely on — `trim`, `trimEnd`,
    `indexOf`, `split` with a string separator and `Array.prototype.join` —
    over `seq<char>`. */
module JsString {
  import opened Wrappers

  /** ECMAScript LineTerminator: LF, CR, LINE SEPARATOR, PARAGRAPH SEPARATOR.
      The regular-expression `.` matches every character but these. */
  predicate IsLineTerminator(c: char) {
    c == '\n' || c == '\r' || c as int == 0x2028 || c as int == 0x2029
  }

  /** ECMAScript WhiteSpace: TAB, VT, FF, ZWNBSP and the space separators (category Zs). */
  predicate IsWhiteSpace(c: char) {
    var n := c as int;
    n == 0x09 || n == 0x0B || n == 0x0C || n == 0x20 || n == 0xA0 || n == 0xFEFF
    || n == 0x1680 || (0x2000 <= n <= 0x200A) || n == 0x202F || n == 0x205F || n == 0x3000
  }

  /** The characters `trim` and `trimEnd` strip. */
  predicate IsTrimmable(c: char) {
    IsWhiteSpace(c) || IsLineTerminator(c)
  }

  predicate AllTrimmable(s: string) {
    forall i :: 0 <= i < |s| ==> IsTrimmable(s[i])
  }

  predicate NoLineTerminator(s: string) {
    forall i :: 0 <= i < |s| ==> !IsLineTerminator(s[i])
  }

  /** `String.prototype.trimEnd`: the longest prefix that does not end in a trimmable character. */
  function TrimEnd(s: string): (r: string)
    ensures r <= s
    ensures AllTrimmable(s[|r|..])
    ensures r == [] || !IsTrimmable(r[|r| - 1])
  {
    if |s| == 0 || !IsTrimmable(s[|s| - 1]) then s
    else
      var r := TrimEnd(s[..|s| - 1]);
      assert s[|r|..] == s[..|s| - 1][|r|..] + [s[|s| - 1]];
      r
  }

  /** Neither end of `s` is trimmable: `s` is its own trim. */
  predicate IsTrimmed(s: string) {
    s == [] || (!IsTrimmable(s[0]) && !IsTrimmable(s[|s| - 1]))
  }

  /** The index of the first non-trimmable character at or after `i`, or `|s|`. */
  function SkipTrimmable(s: string, i: nat): (r: nat)
    requires i <= |s|
    ensures i <= r <= |s|
    ensures forall k :: i <= k < r ==> IsTrimmable(s[k])
    ensures r < |s| ==> !IsTrimmable(s[r])
    decreases |s| - i
  {
    if i == |s| || !IsTrimmable(s[i]) then i else SkipTrimmable(s, i + 1)
  }

  /** `String.prototype.trim`: trimmable characters removed from both ends. */
  function Trim(s: string): (r: string)
    ensures |r| <= |s|
    ensures IsTrimmed(r)
  {
    TrimEnd(s[SkipTrimmable(s, 0)..])
  }

  /** The trim of `s` is the infix of `s` left once the trimmable characters at both ends
      are cut off; it is empty exactly when every character of `s` is trimmable. */
  lemma TrimIsInfix(s: string)
    ensures var lo, r := SkipTrimmable(s, 0), Trim(s);
      && lo + |r| <= |s|
      && r == s[lo..lo + |r|]
      && AllTrimmable(s[..lo])
      && AllTrimmable(s[lo + |r|..])
    ensures Trim(s) == [] <==> AllTrimmable(s)
  {
    var lo := SkipTrimmable(s, 0);
    var r := TrimEnd(s[lo..]);
    assert s[lo..][..|r|] == s[lo..lo + |r|];
    assert s[lo + |r|..] == s[lo..][|r|..];
    assert r == [] ==> lo == |s| && s[..lo] == s;
  }

  /** A trimmed string is its own trim; in particular trimming twice is trimming once. */
  lemma TrimmedIsFixed(s: string)
    requires IsTrimmed(s)
    ensures Trim(s) == s
  {
  }

  /** `p` occurs in `s` starting at index `i`. */
  predicate OccursAt(s: string, p: string, i: int) {
    0 <= i && i + |p| <= |s| && s[i..i + |p|] == p
  }

  /** `s.indexOf(p, from)`: the first occurrence of `p` at or after `from`, if any. */
  function IndexOf(s: string, p: string, from: nat): (r: Option<nat>)
    ensures r.Some? ==> from <= r.value && OccursAt(s, p, r.value)
    ensures r.Some? ==> forall i :: from <= i < r.value ==> !OccursAt(s, p, i)
    ensures r.None? ==> forall i :: from <= i ==> !OccursAt(s, p, i)
    decreases |s| - from
  {
    if from + |p| > |s| then None
    else if s[from..from + |p|] == p then Some(from)
    else IndexOf(s, p, from + 1)
  }

  /** A search from `from` that passes no occurrence before `i` and meets one at `i`
      answers `i`. */
  lemma IndexOfAt(s: string, p: string, from: nat, i: nat)
    requires from <= i && OccursAt(s, p, i)
    requires forall j :: from <= j < i ==> !OccursAt(s, p, j)
    ensures IndexOf(s, p, from) == Some(i)
  {
  }

  /** `p` does not occur at `j` when its `m`-th character disagrees with the text. */
  lemma MismatchAt(s: string, p: string, j: nat, m: nat)
    requires m < |p| && j + m < |s| && s[j + m] != p[m]
    ensures !OccursAt(s, p, j)
  {
    if j + |p| <= |s| {
      assert s[j..j + |p|][m] == s[j + m];
    }
  }

  /** `p` occurs nowhere in `s`. */
  predicate Lacks(s: string, p: string) {
    IndexOf(s, p, 0).None?
  }

  /** `s.split(sep)` for a non-empty separator, from index `from` on: the pieces between
      successive leftmost non-overlapping occurrences of `sep`, found by repeated `indexOf`. */
  function SplitFrom(s: string, sep: string, from: nat): (r: seq<string>)
    requires |sep| > 0
    requires from <= |s|
    ensures |r| >= 1
    ensures forall k :: 0 <= k < |r| ==> Lacks(r[k], sep)
    decreases |s| - from
  {
    match IndexOf(s, sep, from)
    case None =>
      LacksWhenAbsent(s, sep, from, |s|);
      assert s[from..] == s[from..|s|];
      [s[from..]]
    case Some(j) =>
      LacksWhenAbsent(s, sep, from, j);
      [s[from..j]] + SplitFrom(s, sep, j + |sep|)
  }

  /** `s.split(sep)` for a non-empty separator. */
  function Split(s: string, sep: string): (r: seq<string>)
    requires |sep| > 0
    ensures |r| >= 1
    ensures forall k :: 0 <= k < |r| ==> Lacks(r[k], sep)
  {
    SplitFrom(s, sep, 0)
  }

  /** A piece that ends before the next occurrence of `sep` does not contain `sep`. */
  lemma LacksWhenAbsent(s: string, sep: string, from: nat, to: nat)
    requires from <= to <= |s|
    requires forall i :: from <= i && i + |sep| <= to ==> !OccursAt(s, sep, i)
    ensures Lacks(s[from..to], sep)
  {
    var piece := s[from..to];
    forall i | OccursAt(piece, sep, i)
      ensures false
    {
      forall k | 0 <= k < |sep|
        ensures sep[k] == s[from + i + k]
      {
        assert sep[k] == piece[i + k];
      }
      assert s[from + i..from + i + |sep|] == sep;
      assert OccursAt(s, sep, from + i);
    }
  }

  /** `pieces.join(sep)`. */
  function Join(pieces: seq<string>, sep: string): string {
    if |pieces| == 0 then ""
    else if |pieces| == 1 then pieces[0]
    else pieces[0] + sep + Join(pieces[1..], sep)
  }

  /** Joining the pieces of a split with its separator gives back the string. */
  lemma {:induction false} JoinSplitFrom(s: string, sep: string, from: nat)
    requires |sep| > 0
    requires from <= |s|
    ensures Join(SplitFrom(s, sep, from), sep) == s[from..]
    decreases |s| - from
  {
    match IndexOf(s, sep, from)
    case None =>
    case Some(j) =>
      var rest := SplitFrom(s, sep, j + |sep|);
      JoinSplitFrom(s, sep, j + |sep|);
      assert SplitFrom(s, sep, from) == [s[from..j]] + rest;
      assert s[from..] == s[from..j] + s[j..j + |sep|] + s[j + |sep|..];
  }

  /** `s.split(sep)` and `.join(sep)` are inverse. */
  lemma JoinSplit(s: string, sep: string)
    requires |sep| > 0
    ensures Join(Split(s, sep), sep) == s
  {
    JoinSplitFrom(s, sep, 0);
  }

  /** The first piece of a split is everything before the first separator, and the
      remaining pieces joined back are everything after it; with no separator the
      first piece is the whole string and nothing remains. */
  lemma SplitAtFirst(s: string, sep: string)
    requires |sep| > 0
    ensures IndexOf(s, sep, 0).None? ==> Split(s, sep) == [s]
    ensures IndexOf(s, sep, 0).Some? ==>
      var j := IndexOf(s, sep, 0).value;
      Split(s, sep)[0] == s[..j] && Join(Split(s, sep)[1..], sep) == s[j + |sep|..]
  {
    match IndexOf(s, sep, 0)
    case None =>
      assert s[0..] == s;
    case Some(j) =>
      var rest := SplitFrom(s, sep, j + |sep|);
      assert Split(s, sep) == [s[..j]] + rest;
      assert Split(s, sep)[1..] == rest;
      JoinSplitFrom(s, sep, j + |sep|);
  }

  /** The first two pieces of `s.split(sep)`, as searches: the first ends at the first
      separator (or the end), the second, when there is one, runs from there to the next
      separator (or the end). */
  lemma SplitFirstTwo(s: string, sep: string)
    requires |sep| > 0
    ensures IndexOf(s, sep, 0).None? <==> |Split(s, sep)| == 1
    ensures IndexOf(s, sep, 0).None? ==> Split(s, sep)[0] == s
    ensures IndexOf(s, sep, 0).Some? ==>
      var j := IndexOf(s, sep, 0).value;
      var e := IndexOf(s, sep, j + |sep|).GetOr(|s|);
      Split(s, sep)[0] == s[..j] && j + |sep| <= e <= |s| && Split(s, sep)[1] == s[j + |sep|..e]
  {
    match IndexOf(s, sep, 0)
    case None =>
    case Some(j) =>
      assert Split(s, sep) == [s[..j]] + SplitFrom(s, sep, j + |sep|);
  }
}
