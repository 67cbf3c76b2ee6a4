/**
 * The parts of .NET's System.String that the lookup relies on, with ordinal
 * (character-by-character) comparison: IndexOf, Contains, Split (with and
 * without StringSplitOptions.RemoveEmptyEntries), ToLower restricted to ASCII,
 * and Trim.
 */
module Text {
  import opened Wrappers

  /** `t` occurs in `s` starting at index `i`. */
  predicate OccursAt(s: string, t: string, i: int)
  {
    0 <= i && i + |t| <= |s| && s[i..i + |t|] == t
  }

  /** The leftmost index at or after `i` where `t` occurs in `s` (String.IndexOf, ordinal). */
  function IndexFrom(s: string, t: string, i: nat): (r: Option<nat>)
    ensures r.Some? ==> i <= r.value && OccursAt(s, t, r.value)
    ensures r.Some? ==> forall j :: i <= j < r.value ==> !OccursAt(s, t, j)
    ensures r.None? ==> forall j :: i <= j ==> !OccursAt(s, t, j)
    decreases |s| - i
  {
    if i + |t| > |s| then None
    else if s[i..i + |t|] == t then Some(i)
    else IndexFrom(s, t, i + 1)
  }

  /** String.Contains with ordinal comparison. */
  function Contains(s: string, t: string): (b: bool)
    ensures b <==> exists j :: OccursAt(s, t, j)
  {
    IndexFrom(s, t, 0).Some?
  }

  /** No occurrence of `t` that starts before `k` lies inside `s[..k]`. */
  lemma NoOccurrenceInPrefix(s: string, t: string, k: nat)
    requires t != "" && k <= |s|
    requires forall j :: 0 <= j < k ==> !OccursAt(s, t, j)
    ensures !Contains(s[..k], t)
  {
    forall j | OccursAt(s[..k], t, j)
      ensures false
    {
      assert s[..k][j..j + |t|] == s[j..j + |t|];
      assert OccursAt(s, t, j);
    }
  }

  /**
   * String.Split with one non-empty separator and no options: the pieces
   * between the leftmost non-overlapping occurrences of `sep`, empty pieces
   * included.
   */
  function Split(s: string, sep: string): (pieces: seq<string>)
    requires sep != ""
    ensures |pieces| >= 1
    ensures forall k :: 0 <= k < |pieces| ==> !Contains(pieces[k], sep)
    ensures |pieces| == 1 <==> !Contains(s, sep)
    ensures !Contains(s, sep) ==> pieces == [s]
    decreases |s|
  {
    match IndexFrom(s, sep, 0)
    case None => [s]
    case Some(k) =>
      NoOccurrenceInPrefix(s, sep, k);
      [s[..k]] + Split(s[k + |sep|..], sep)
  }

  /** String.Join: the inverse of Split. */
  function Join(pieces: seq<string>, sep: string): string
    requires |pieces| >= 1
  {
    if |pieces| == 1 then pieces[0] else pieces[0] + sep + Join(pieces[1..], sep)
  }

  /** Splitting loses nothing: joining the pieces with the separator gives the input back. */
  lemma {:induction false} JoinSplit(s: string, sep: string)
    requires sep != ""
    ensures Join(Split(s, sep), sep) == s
    decreases |s|
  {
    match IndexFrom(s, sep, 0)
    case None =>
    case Some(k) =>
      var rest := s[k + |sep|..];
      var tail := Split(rest, sep);
      JoinSplit(rest, sep);
      var pieces := [s[..k]] + tail;
      assert Split(s, sep) == pieces;
      assert pieces[1..] == tail;
      assert Join(pieces, sep) == s[..k] + sep + rest;
      SliceAround(s, k, |sep|);
  }

  lemma SliceAround(s: string, k: nat, n: nat)
    requires k + n <= |s|
    ensures s == s[..k] + s[k..k + n] + s[k + n..]
  {
  }

  /** The pieces that are not empty, in their original order. */
  function RemoveEmpty(pieces: seq<string>): (r: seq<string>)
    ensures |r| <= |pieces|
    ensures forall i :: 0 <= i < |r| ==> r[i] != "" && r[i] in pieces
    ensures forall i :: 0 <= i < |pieces| && pieces[i] != "" ==> pieces[i] in r
  {
    if pieces == [] then []
    else if pieces[0] == "" then RemoveEmpty(pieces[1..])
    else [pieces[0]] + RemoveEmpty(pieces[1..])
  }

  /** A single piece is dropped when empty and kept otherwise. */
  lemma RemoveEmptyOne(piece: string)
    ensures RemoveEmpty([piece]) == if piece == "" then [] else [piece]
  {
    assert [piece][1..] == [];
  }

  /**
   * Removing empty pieces distributes over concatenation; with RemoveEmptyOne
   * this fixes the result as the non-empty pieces in their original order.
   */
  lemma {:induction false} RemoveEmptyConcat(a: seq<string>, b: seq<string>)
    ensures RemoveEmpty(a + b) == RemoveEmpty(a) + RemoveEmpty(b)
  {
    if a == [] {
      assert a + b == b;
    } else {
      assert (a + b)[0] == a[0];
      assert (a + b)[1..] == a[1..] + b;
      RemoveEmptyConcat(a[1..], b);
    }
  }

  /** String.Split with one separator and StringSplitOptions.RemoveEmptyEntries. */
  function SplitNonEmpty(s: string, sep: string): (lines: seq<string>)
    requires sep != ""
    ensures forall i :: 0 <= i < |lines| ==> lines[i] != "" && !Contains(lines[i], sep)
    ensures forall i :: 0 <= i < |lines| ==> lines[i] in Split(s, sep)
    ensures forall p :: p in Split(s, sep) && p != "" ==> p in lines
  {
    var pieces := Split(s, sep);
    var r := RemoveEmpty(pieces);
    assert forall p :: p in pieces && p != "" ==> p in r by {
      forall p | p in pieces && p != "" ensures p in r {
        var i :| 0 <= i < |pieces| && pieces[i] == p;
      }
    }
    r
  }

  /**
   * Lines keep the order of the text: when the first separator of the text
   * follows `first`, the line `first` (if it is not empty) comes before all
   * the lines of the rest.
   */
  lemma SplitNonEmptyFirst(first: string, sep: string, rest: string)
    requires sep != ""
    requires forall j :: 0 <= j < |first| ==> !OccursAt(first + sep + rest, sep, j)
    ensures SplitNonEmpty(first + sep + rest, sep)
            == (if first == "" then [] else [first]) + SplitNonEmpty(rest, sep)
  {
    var s := first + sep + rest;
    assert s[|first|..|first| + |sep|] == sep;
    assert OccursAt(s, sep, |first|);
    assert IndexFrom(s, sep, 0) == Some(|first|);
    assert s[..|first|] == first;
    assert s[|first| + |sep|..] == rest;
    assert Split(s, sep) == [first] + Split(rest, sep);
    RemoveEmptyConcat([first], Split(rest, sep));
    RemoveEmptyOne(first);
  }

  /** Character.ToLower restricted to ASCII: only 'A'..'Z' change, each to its lower-case letter. */
  function LowerChar(c: char): (d: char)
    ensures !('A' <= d <= 'Z')
    ensures d == c || ('A' <= c <= 'Z' && d as int == c as int + 32)
  {
    if 'A' <= c <= 'Z' then (c as int + 32) as char else c
  }

  /** String.ToLower restricted to ASCII: the same text with every 'A'..'Z' lowered and nothing else changed. */
  function Lower(s: string): (r: string)
    ensures |r| == |s|
    ensures forall i :: 0 <= i < |s| ==> !('A' <= r[i] <= 'Z')
    ensures forall i :: 0 <= i < |s| ==> r[i] == s[i] || ('A' <= s[i] <= 'Z' && r[i] as int == s[i] as int + 32)
  {
    seq(|s|, i requires 0 <= i < |s| => LowerChar(s[i]))
  }

  /** Lowering works character by character, so it distributes over concatenation. */
  lemma LowerConcat(a: string, b: string)
    ensures Lower(a + b) == Lower(a) + Lower(b)
  {
    assert forall i :: 0 <= i < |a + b| ==> Lower(a + b)[i] == (Lower(a) + Lower(b))[i];
  }

  /** An occurrence of `t` inside `b` is an occurrence inside `a + b`, shifted by `|a|`. */
  lemma OccursAfter(a: string, b: string, t: string, j: int)
    requires OccursAt(b, t, j)
    ensures OccursAt(a + b, t, |a| + j)
  {
    assert (a + b)[|a| + j..|a| + j + |t|] == b[j..j + |t|];
  }

  /** Char.IsWhiteSpace: the Unicode space, line and paragraph separators, U+0009..U+000D and U+0085. */
  predicate IsWhiteSpace(c: char)
  {
    c == ' ' || ('\t' <= c <= '\r') || c == '\U{0085}' || c == '\U{00A0}' || c == '\U{1680}'
    || ('\U{2000}' <= c <= '\U{200A}') || c == '\U{2028}' || c == '\U{2029}'
    || c == '\U{202F}' || c == '\U{205F}' || c == '\U{3000}'
  }

  /** String.TrimStart(): what remains after the leading white space. */
  function TrimStart(s: string): (r: string)
    ensures |r| <= |s| && r == s[|s| - |r|..]
    ensures forall i :: 0 <= i < |s| - |r| ==> IsWhiteSpace(s[i])
    ensures r == [] || !IsWhiteSpace(r[0])
    decreases |s|
  {
    if s != [] && IsWhiteSpace(s[0]) then TrimStart(s[1..]) else s
  }

  /** String.TrimEnd(): what remains before the trailing white space. */
  function TrimEnd(s: string): (r: string)
    ensures |r| <= |s| && r == s[..|r|]
    ensures forall i :: |r| <= i < |s| ==> IsWhiteSpace(s[i])
    ensures r == [] || !IsWhiteSpace(r[|r| - 1])
    decreases |s|
  {
    if s != [] && IsWhiteSpace(s[|s| - 1]) then TrimEnd(s[..|s| - 1]) else s
  }

  /** String.Trim(): the slice of `s` left when leading and trailing white space is dropped. */
  function Trim(s: string): (r: string)
    ensures var i := |s| - |TrimStart(s)|;
            i + |r| <= |s| && r == s[i..i + |r|]
            && (forall k :: 0 <= k < i ==> IsWhiteSpace(s[k]))
            && (forall k :: i + |r| <= k < |s| ==> IsWhiteSpace(s[k]))
    ensures r == [] || (!IsWhiteSpace(r[0]) && !IsWhiteSpace(r[|r| - 1]))
  {
    TrimEnd(TrimStart(s))
  }

  /** Trim is determined by its effect: white space around an untrimmable core is exactly what it drops. */
  lemma TrimPadded(w1: string, core: string, w2: string)
    requires forall k :: 0 <= k < |w1| ==> IsWhiteSpace(w1[k])
    requires forall k :: 0 <= k < |w2| ==> IsWhiteSpace(w2[k])
    requires core == [] || (!IsWhiteSpace(core[0]) && !IsWhiteSpace(core[|core| - 1]))
    ensures Trim(w1 + core + w2) == core
  {
    var s := w1 + core + w2;
    if core == [] {
      assert forall k :: 0 <= k < |s| ==> IsWhiteSpace(s[k]) by {
        assert s == w1 + w2;
      }
      TrimStartPadded(s, []);
      assert s + [] == s;
    } else {
      assert s == w1 + (core + w2);
      TrimStartPadded(w1, core + w2);
      TrimEndPadded(core, w2);
    }
  }

  /** Leading white space in front of a part that does not start with white space is what TrimStart drops. */
  lemma {:induction false} TrimStartPadded(w: string, rest: string)
    requires forall k :: 0 <= k < |w| ==> IsWhiteSpace(w[k])
    requires rest == [] || !IsWhiteSpace(rest[0])
    ensures TrimStart(w + rest) == rest
    decreases |w|
  {
    if w != [] {
      assert (w + rest)[1..] == w[1..] + rest;
      TrimStartPadded(w[1..], rest);
    } else {
      assert w + rest == rest;
    }
  }

  /** Trailing white space after a part that does not end with white space is what TrimEnd drops. */
  lemma {:induction false} TrimEndPadded(core: string, w: string)
    requires forall k :: 0 <= k < |w| ==> IsWhiteSpace(w[k])
    requires core != [] && !IsWhiteSpace(core[|core| - 1])
    ensures TrimEnd(core + w) == core
    decreases |w|
  {
    if w != [] {
      assert (core + w)[..|core + w| - 1] == core + w[..|w| - 1];
      TrimEndPadded(core, w[..|w| - 1]);
    } else {
      assert core + w == core;
    }
  }
}
