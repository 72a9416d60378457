/**
 * The destination suffix of a resource: the resource urn split on the
 * document urn, element [1]. .NET's `String.Split(string)` and JavaScript's
 * `String.prototype.split(string)` both cut at every non-overlapping
 * occurrence of a non-empty separator, scanning left to right; they differ
 * only for an empty separator.
 */
module UrnSplit {
  import opened Wrappers

  /** Which library's split is used. */
  datatype SplitRule = DotNet | JavaScript

  /** `sep` occurs in `s` starting at position `i`. */
  predicate OccursAt(s: string, sep: string, i: nat)
  {
    i + |sep| <= |s| && s[i..i + |sep|] == sep
  }

  ghost predicate Occurs(s: string, sep: string)
  {
    exists i: nat :: OccursAt(s, sep, i)
  }

  /** The first position at or after `from` where `sep` occurs (`IndexOf`/`indexOf` from `from`). */
  function IndexOfFrom(s: string, sep: string, from: nat): Option<nat>
    requires from <= |s|
    decreases |s| - from
  {
    if OccursAt(s, sep, from) then Some(from)
    else if from == |s| then None
    else IndexOfFrom(s, sep, from + 1)
  }

  /** The search finds the first occurrence at or after `from`, and reports none only when there is none. */
  lemma {:induction false} IndexOfFromSpec(s: string, sep: string, from: nat)
    requires from <= |s|
    ensures var r := IndexOfFrom(s, sep, from);
      && (r.Some? ==> from <= r.value && OccursAt(s, sep, r.value)
                      && forall j: nat :: from <= j < r.value ==> !OccursAt(s, sep, j))
      && (r.None? ==> forall j: nat :: from <= j ==> !OccursAt(s, sep, j))
    decreases |s| - from
  {
    if !OccursAt(s, sep, from) && from < |s| {
      IndexOfFromSpec(s, sep, from + 1);
    }
  }

  /** The pieces of `s[from..]` between the occurrences of a non-empty `sep`, found left to right. */
  function SplitFrom(s: string, sep: string, from: nat): (parts: seq<string>)
    requires |sep| > 0 && from <= |s|
    ensures |parts| >= 1
    decreases |s| - from
  {
    IndexOfFromSpec(s, sep, from);
    match IndexOfFrom(s, sep, from)
    case None => [s[from..]]
    case Some(i) => [s[from..i]] + SplitFrom(s, sep, i + |sep|)
  }

  /** The pieces of `s` between the occurrences of a non-empty `sep`. */
  function Split(s: string, sep: string): seq<string>
    requires |sep| > 0
  {
    SplitFrom(s, sep, 0)
  }

  /** The inverse of splitting: the pieces glued back with the separator between them. */
  function Join(parts: seq<string>, sep: string): string
    requires |parts| >= 1
  {
    if |parts| == 1 then parts[0] else parts[0] + sep + Join(parts[1..], sep)
  }

  /** Splitting loses nothing: joining the pieces of `s[from..]` gives `s[from..]` back. */
  lemma {:induction false} JoinSplitFrom(s: string, sep: string, from: nat)
    requires |sep| > 0 && from <= |s|
    ensures Join(SplitFrom(s, sep, from), sep) == s[from..]
    decreases |s| - from
  {
    IndexOfFromSpec(s, sep, from);
    match IndexOfFrom(s, sep, from)
    case None =>
    case Some(i) =>
      var next := i + |sep|;
      JoinSplitFrom(s, sep, next);
      var parts := SplitFrom(s, sep, from);
      assert parts == [s[from..i]] + SplitFrom(s, sep, next);
      assert parts[0] == s[from..i] && parts[1..] == SplitFrom(s, sep, next);
      assert Join(parts, sep) == s[from..i] + s[i..next] + s[next..];
      ThreeSlices(s, from, i, next);
  }

  /** Three adjacent slices make up the suffix they cover. */
  lemma ThreeSlices(s: string, a: nat, b: nat, c: nat)
    requires a <= b <= c <= |s|
    ensures s[a..b] + s[b..c] + s[c..] == s[a..]
  {
  }

  /** Joining the pieces of the whole urn gives the urn back. */
  lemma JoinSplit(s: string, sep: string)
    requires |sep| > 0
    ensures Join(Split(s, sep), sep) == s
  {
    JoinSplitFrom(s, sep, 0);
  }

  /** A slice of a slice is a slice of the original string. */
  lemma SliceOfSlice(s: string, lo: nat, hi: nat, j: nat, n: nat)
    requires lo <= hi <= |s| && j + n <= hi - lo
    ensures s[lo..hi][j..j + n] == s[lo + j..lo + j + n]
  {
    var a, b := s[lo..hi][j..j + n], s[lo + j..lo + j + n];
    forall k | 0 <= k < n
      ensures a[k] == b[k]
    {
    }
  }

  /** No piece contains the separator. */
  lemma {:induction false} SplitFromPiecesAreFree(s: string, sep: string, from: nat)
    requires |sep| > 0 && from <= |s|
    ensures forall p :: p in SplitFrom(s, sep, from) ==> !Occurs(p, sep)
    decreases |s| - from
  {
    IndexOfFromSpec(s, sep, from);
    var r := IndexOfFrom(s, sep, from);
    var end := if r.Some? then r.value else |s|;
    var piece := s[from..end];
    forall j: nat | OccursAt(piece, sep, j)
      ensures false
    {
      SliceOfSlice(s, from, end, j, |sep|);
      assert OccursAt(s, sep, from + j);
    }
    assert !Occurs(piece, sep);
    if r.Some? {
      SplitFromPiecesAreFree(s, sep, r.value + |sep|);
      assert SplitFrom(s, sep, from) == [piece] + SplitFrom(s, sep, r.value + |sep|);
    } else {
      assert piece == s[from..];
      assert SplitFrom(s, sep, from) == [piece];
    }
  }

  lemma SplitPiecesAreFree(s: string, sep: string)
    requires |sep| > 0
    ensures forall p :: p in Split(s, sep) ==> !Occurs(p, sep)
  {
    SplitFromPiecesAreFree(s, sep, 0);
  }

  /**
   * The string cut into one-character strings. JavaScript cuts into UTF-16
   * code units; here a character is one element of the string.
   */
  function Characters(s: string): seq<string>
  {
    seq(|s|, k requires 0 <= k < |s| => [s[k]])
  }

  /** Cutting into characters loses nothing: joining them with nothing between gives the string back. */
  lemma {:induction false} JoinCharacters(s: string)
    requires |s| >= 1
    ensures Join(Characters(s), "") == s
    decreases |s|
  {
    if |s| > 1 {
      var tail := s[1..];
      JoinCharacters(tail);
      assert Characters(s)[1..] == Characters(tail);
      assert Join(Characters(s), "") == [s[0]] + "" + Join(Characters(tail), "");
      assert s == [s[0]] + tail;
    }
  }

  /** The pieces the library returns, including its rule for an empty separator. */
  function SplitParts(rule: SplitRule, s: string, sep: string): (parts: seq<string>)
    ensures parts == [] <==> rule == JavaScript && sep == [] && s == []
  {
    if |sep| > 0 then Split(s, sep)
    else match rule
      // `String.Split` with an empty separator returns the whole string as the only element
      case DotNet => [s]
      // `split("")` returns the string's code units one by one
      case JavaScript => Characters(s)
  }

  /** `s.Split(sep)[1]` / `s.split(sep)[1]`: None where .NET throws an index error and JavaScript gives undefined. */
  function SecondPart(rule: SplitRule, s: string, sep: string): Option<string>
  {
    var parts := SplitParts(rule, s, sep);
    if |parts| >= 2 then Some(parts[1]) else None
  }

  /** For a non-empty document urn, a suffix exists exactly when the document urn occurs in the resource urn. */
  lemma SecondPartDefinedIffOccurs(rule: SplitRule, s: string, sep: string)
    requires |sep| > 0
    ensures SecondPart(rule, s, sep).Some? <==> Occurs(s, sep)
  {
    IndexOfFromSpec(s, sep, 0);
    var r := IndexOfFrom(s, sep, 0);
    if r.Some? {
      assert OccursAt(s, sep, r.value);
    }
  }

  /** `i` is where `sep` first occurs in `s`. */
  predicate FirstOccurrence(s: string, sep: string, i: nat)
  {
    OccursAt(s, sep, i) && forall j: nat :: j < i ==> !OccursAt(s, sep, j)
  }

  /** An occurrence with none before it, from `from` on, is what the search finds. */
  lemma {:induction false} IndexOfFromFinds(s: string, sep: string, from: nat, i: nat)
    requires from <= i && OccursAt(s, sep, i)
    requires forall j: nat :: from <= j < i ==> !OccursAt(s, sep, j)
    ensures IndexOfFrom(s, sep, from) == Some(i)
    decreases i - from
  {
    if from < i {
      IndexOfFromFinds(s, sep, from + 1, i);
    }
  }

  /** Element [1] is the first piece of what follows the first occurrence. */
  lemma SecondPartAfterFirst(rule: SplitRule, s: string, sep: string, i: nat)
    requires |sep| > 0 && FirstOccurrence(s, sep, i)
    ensures SecondPart(rule, s, sep) == Some(SplitFrom(s, sep, i + |sep|)[0])
  {
    IndexOfFromFinds(s, sep, 0, i);
    assert Split(s, sep) == [s[..i]] + SplitFrom(s, sep, i + |sep|);
  }

  /**
   * `p` is the text of `s` at `a`, up to the next occurrence of `sep`: no
   * occurrence starts inside it, and it is followed by the end of `s` or by
   * an occurrence.
   */
  predicate SegmentAt(s: string, sep: string, a: nat, p: string)
  {
    && a + |p| <= |s| && s[a..a + |p|] == p
    && (forall j: nat :: a <= j < a + |p| ==> !OccursAt(s, sep, j))
    && (a + |p| == |s| || OccursAt(s, sep, a + |p|))
  }

  /** The first piece from `from` runs up to the end of the string or to the next occurrence. */
  lemma FirstPieceEnds(s: string, sep: string, from: nat)
    requires |sep| > 0 && from <= |s|
    ensures SegmentAt(s, sep, from, SplitFrom(s, sep, from)[0])
  {
    IndexOfFromSpec(s, sep, from);
    var r := IndexOfFrom(s, sep, from);
    if r.None? {
      assert SplitFrom(s, sep, from)[0] == s[from..];
    } else {
      assert SplitFrom(s, sep, from)[0] == s[from..r.value];
    }
  }

  /** The suffix never contains the document urn. */
  lemma SecondPartIsFree(rule: SplitRule, s: string, sep: string, p: string)
    requires |sep| > 0 && SecondPart(rule, s, sep) == Some(p)
    ensures !Occurs(p, sep)
  {
    SplitPiecesAreFree(s, sep);
    assert p in Split(s, sep);
  }

  /**
   * The suffix is the text right after the first occurrence `i` of the
   * document urn, and it is followed either by the end of the resource urn or
   * by another occurrence.
   */
  lemma SecondPartIsNextSegment(rule: SplitRule, s: string, sep: string, i: nat)
    requires |sep| > 0 && FirstOccurrence(s, sep, i)
    ensures SecondPart(rule, s, sep).Some?
    ensures SegmentAt(s, sep, i + |sep|, SecondPart(rule, s, sep).value)
  {
    SecondPartAfterFirst(rule, s, sep, i);
    FirstPieceEnds(s, sep, i + |sep|);
  }

  /**
   * A resource urn made of the document urn followed by a tail that does not
   * repeat it yields exactly that tail: "<doc>/p1.pdf" gives "/p1.pdf".
   */
  lemma SecondPartOfPrefixed(rule: SplitRule, doc: string, tail: string)
    requires |doc| > 0 && !Occurs(tail, doc)
    ensures SecondPart(rule, doc + tail, doc) == Some(tail)
  {
    var s := doc + tail;
    var n := |doc|;
    assert s[0..n] == doc;
    assert FirstOccurrence(s, doc, 0);
    forall j: nat | n <= j && OccursAt(s, doc, j)
      ensures false
    {
      assert tail[j - n..j - n + n] == s[j..j + n];
      assert OccursAt(tail, doc, j - n);
    }
    IndexOfFromSpec(s, doc, n);
    assert IndexOfFrom(s, doc, n).None?;
    assert s[n..] == tail;
    SecondPartAfterFirst(rule, s, doc, 0);
  }

  /** With an empty document urn the two libraries disagree: .NET never has an element [1], JavaScript has the second character. */
  lemma EmptySeparator(s: string)
    ensures SecondPart(DotNet, s, "") == None
    ensures SecondPart(JavaScript, s, "") == if |s| >= 2 then Some([s[1]]) else None
  {
  }
}
