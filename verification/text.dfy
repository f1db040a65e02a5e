/**
 * The two pieces of Rust's string handling the parser relies on:
 * `str::lines` (split at line feeds, a carriage return before a line feed
 * is dropped, a final line feed ends the last line instead of starting a
 * new one) and `str::trim` (drop leading and trailing characters for which
 * `char::is_whitespace` holds, i.e. the Unicode White_Space property).
 */
module Text {

  predicate IsWhitespace(c: char) {
    || c == ' '
    || ('\t' <= c <= '\r')
    || c == '\U{85}'
    || c == '\U{A0}'
    || c == '\U{1680}'
    || ('\U{2000}' <= c <= '\U{200A}')
    || c == '\U{2028}'
    || c == '\U{2029}'
    || c == '\U{202F}'
    || c == '\U{205F}'
    || c == '\U{3000}'
  }

  /** Every character of `s[lo..hi]` is whitespace. */
  predicate WhitespaceBetween(s: string, lo: int, hi: int)
    requires 0 <= lo <= hi <= |s|
  {
    forall k :: lo <= k < hi ==> IsWhitespace(s[k])
  }

  function TrimStart(s: string): string {
    if s != [] && IsWhitespace(s[0]) then TrimStart(s[1..]) else s
  }

  function TrimEnd(s: string): string {
    if s != [] && IsWhitespace(s[|s| - 1]) then TrimEnd(s[..|s| - 1]) else s
  }

  function Trim(s: string): string {
    TrimEnd(TrimStart(s))
  }

  /** `TrimStart` drops leading whitespace only: it keeps a suffix that does
      not start with whitespace. */
  lemma {:induction false} TrimStartSpec(s: string)
    ensures |TrimStart(s)| <= |s| && TrimStart(s) == s[|s| - |TrimStart(s)|..]
    ensures WhitespaceBetween(s, 0, |s| - |TrimStart(s)|)
    ensures TrimStart(s) != [] ==> !IsWhitespace(TrimStart(s)[0])
  {
    if s != [] && IsWhitespace(s[0]) {
      TrimStartSpec(s[1..]);
    }
  }

  /** `TrimEnd` drops trailing whitespace only: it keeps a prefix that does
      not end with whitespace. */
  lemma {:induction false} TrimEndSpec(s: string)
    ensures |TrimEnd(s)| <= |s| && TrimEnd(s) == s[..|TrimEnd(s)|]
    ensures WhitespaceBetween(s, |TrimEnd(s)|, |s|)
    ensures TrimEnd(s) != [] ==> !IsWhitespace(TrimEnd(s)[|TrimEnd(s)| - 1])
  {
    if s != [] && IsWhitespace(s[|s| - 1]) {
      TrimEndSpec(s[..|s| - 1]);
    }
  }

  /** `Trim` keeps a contiguous slice of its input and everything it drops is whitespace. */
  lemma TrimIsSlice(s: string)
    ensures exists i, j ::
      0 <= i <= j <= |s| && Trim(s) == s[i..j] && WhitespaceBetween(s, 0, i) && WhitespaceBetween(s, j, |s|)
  {
    var t := TrimStart(s);
    var u := TrimEnd(t);
    TrimStartSpec(s);
    TrimEndSpec(t);
    var i := |s| - |t|;
    var j := i + |u|;
    assert t == s[i..];
    assert Trim(s) == s[i..j];
    assert WhitespaceBetween(s, 0, i);
    assert WhitespaceBetween(s, j, |s|) by {
      forall k | j <= k < |s| ensures IsWhitespace(s[k]) {
        assert s[k] == t[k - i];
      }
    }
  }

  /** The trimmed line neither starts nor ends with whitespace. */
  lemma TrimEnds(s: string)
    requires Trim(s) != []
    ensures !IsWhitespace(Trim(s)[0]) && !IsWhitespace(Trim(s)[|Trim(s)| - 1])
  {
    var t := TrimStart(s);
    var u := TrimEnd(t);
    TrimStartSpec(s);
    TrimEndSpec(t);
    assert u == t[..|u|];
    assert u[0] == t[0];
  }

  /** A line without whitespace is left alone by `Trim`. */
  lemma TrimNoWhitespace(s: string)
    requires forall k :: 0 <= k < |s| ==> !IsWhitespace(s[k])
    ensures Trim(s) == s
  {
  }

  /** Index of the first line feed, or the length when there is none. */
  function NewlineAt(s: string): (i: nat)
    ensures i <= |s|
    ensures i < |s| ==> s[i] == '\n'
    ensures forall k :: 0 <= k < i ==> s[k] != '\n'
  {
    if s == [] || s[0] == '\n' then 0 else 1 + NewlineAt(s[1..])
  }

  /** A line that was ended by a line feed loses a final carriage return. */
  function DropCr(line: string): string {
    if line != [] && line[|line| - 1] == '\r' then line[..|line| - 1] else line
  }

  function Lines(s: string): (ls: seq<string>)
    ensures s == [] <==> ls == []
    decreases |s|
  {
    if s == [] then []
    else
      var i := NewlineAt(s);
      if i == |s| then [s] else [DropCr(s[..i])] + Lines(s[i + 1..])
  }

  /** No line produced by `Lines` contains a line feed. */
  lemma {:induction false} LinesHaveNoNewline(s: string)
    ensures forall l :: l in Lines(s) ==> '\n' !in l
    decreases |s|
  {
    if s != [] {
      var i := NewlineAt(s);
      if i < |s| {
        LinesHaveNoNewline(s[i + 1..]);
        assert '\n' !in s[..i];
      }
    }
  }

  /** The lines joined with line feeds, without a final one. */
  function Join(ls: seq<string>): string {
    if ls == [] then [] else if |ls| == 1 then ls[0] else ls[0] + "\n" + Join(ls[1..])
  }

  predicate PlainLine(l: string) {
    '\n' !in l && (l != [] ==> l[|l| - 1] != '\r')
  }

  /** A plain line followed by a line feed is split off first; the rest, even
      when empty, gives the remaining lines. */
  lemma LinesCons(a: string, b: string)
    requires PlainLine(a)
    ensures Lines(a + "\n" + b) == [a] + Lines(b)
  {
    var s := a + "\n" + b;
    NewlineFirst(a, b);
    assert s[..|a|] == a;
    assert s[|a| + 1..] == b;
  }

  /** `Lines` splits a join back into its lines when no line holds a line feed
      or ends in a carriage return, and the last line is not empty. */
  lemma {:induction false} LinesOfJoin(ls: seq<string>)
    requires ls != [] && ls[|ls| - 1] != []
    requires forall k :: 0 <= k < |ls| ==> PlainLine(ls[k])
    ensures Lines(Join(ls)) == ls
  {
    if |ls| == 1 {
      assert NewlineAt(ls[0]) == |ls[0]|;
    } else {
      var rest := ls[1..];
      LinesOfJoin(rest);
      assert Join(rest) != [] by {
        assert Lines(Join(rest)) != [];
      }
      LinesCons(ls[0], Join(rest));
      assert ls == [ls[0]] + rest;
    }
  }

  lemma NewlineFirst(a: string, b: string)
    requires '\n' !in a
    ensures NewlineAt(a + "\n" + b) == |a|
  {
    var s := a + "\n" + b;
    assert s[|a|] == '\n';
    assert forall k :: 0 <= k < |a| ==> s[k] == a[k];
  }
}
