/**
 * Selection of resource nodes among a viewable's children, and the page
 * descriptor built from a viewable. `FirstMatch` is "find the first child
 * that matches" and `Matching` is "keep every child that matches"; both
 * clients implement exactly these (C# with loops, JavaScript with
 * `Array.find` and `Array.filter`).
 */
module Selection {
  import opened Wrappers
  import opened Manifest

  /** The first child, in manifest order, that is eligible for (role, typ); None if there is none. */
  function FirstMatch(children: seq<ResourceNode>, role: string, typ: string): (r: Option<ResourceNode>)
    ensures r.Some? ==> r.value in children && IsEligible(r.value, role, typ)
  {
    if children == [] then None
    else if IsEligible(children[0], role, typ) then Some(children[0])
    else FirstMatch(children[1..], role, typ)
  }

  /**
   * `find` answers None exactly when no child is eligible, and otherwise an
   * eligible child with no eligible child before it.
   */
  lemma {:induction false} FirstMatchSpec(children: seq<ResourceNode>, role: string, typ: string)
    ensures var r := FirstMatch(children, role, typ);
      && (r.None? <==> forall k :: 0 <= k < |children| ==> !IsEligible(children[k], role, typ))
      && (r.Some? ==> exists k :: 0 <= k < |children| && children[k] == r.value
                                  && IsEligible(r.value, role, typ)
                                  && forall j :: 0 <= j < k ==> !IsEligible(children[j], role, typ))
  {
    if children != [] && !IsEligible(children[0], role, typ) {
      var tail := children[1..];
      FirstMatchSpec(tail, role, typ);
      var r := FirstMatch(tail, role, typ);
      if r.Some? {
        var k :| 0 <= k < |tail| && tail[k] == r.value && IsEligible(r.value, role, typ)
                 && forall j :: 0 <= j < k ==> !IsEligible(tail[j], role, typ);
        assert children[k + 1] == r.value;
        assert forall j :: 0 <= j < k + 1 ==> !IsEligible(children[j], role, typ);
      } else {
        assert forall k :: 1 <= k < |children| ==> !IsEligible(children[k], role, typ) by {
          forall k | 1 <= k < |children| ensures !IsEligible(children[k], role, typ) {
            assert children[k] == tail[k - 1];
          }
        }
      }
    }
  }

  /** Every eligible child, in manifest order. */
  function Matching(children: seq<ResourceNode>, role: string, typ: string): (r: seq<ResourceNode>)
    ensures |r| <= |children|
  {
    if children == [] then []
    else if IsEligible(children[0], role, typ) then [children[0]] + Matching(children[1..], role, typ)
    else Matching(children[1..], role, typ)
  }

  /** `filter` keeps exactly the eligible children. */
  lemma {:induction false} MatchingMembers(children: seq<ResourceNode>, role: string, typ: string)
    ensures forall x :: x in Matching(children, role, typ) <==> x in children && IsEligible(x, role, typ)
  {
    if children != [] {
      MatchingMembers(children[1..], role, typ);
      assert children == [children[0]] + children[1..];
    }
  }

  /** Filtering a concatenation filters each part: the choice for one child never depends on another. */
  lemma {:induction false} MatchingAppend(a: seq<ResourceNode>, b: seq<ResourceNode>, role: string, typ: string)
    ensures Matching(a + b, role, typ) == Matching(a, role, typ) + Matching(b, role, typ)
  {
    if a == [] {
      assert a + b == b;
    } else {
      assert (a + b)[1..] == a[1..] + b;
      MatchingAppend(a[1..], b, role, typ);
    }
  }

  /** Each eligible child is kept as often as it occurs, every other child is dropped. */
  lemma {:induction false} MatchingCount(children: seq<ResourceNode>, role: string, typ: string, x: ResourceNode)
    ensures multiset(Matching(children, role, typ))[x]
            == if IsEligible(x, role, typ) then multiset(children)[x] else 0
  {
    if children != [] {
      assert children == [children[0]] + children[1..];
      MatchingCount(children[1..], role, typ, x);
    }
  }

  /** The positions of the eligible children, in increasing order. */
  function Positions(children: seq<ResourceNode>, role: string, typ: string): seq<nat>
    decreases |children|
  {
    if children == [] then []
    else
      var n := |children| - 1;
      Positions(children[..n], role, typ) + (if IsEligible(children[n], role, typ) then [n] else [])
  }

  /** Every position is the index of a child. */
  lemma {:induction false} PositionsInRange(children: seq<ResourceNode>, role: string, typ: string)
    ensures forall k :: 0 <= k < |Positions(children, role, typ)| ==> Positions(children, role, typ)[k] < |children|
    decreases |children|
  {
    if children != [] {
      var n := |children| - 1;
      PositionsInRange(children[..n], role, typ);
    }
  }

  /** The positions are strictly increasing. */
  lemma {:induction false} PositionsIncreasing(children: seq<ResourceNode>, role: string, typ: string)
    ensures forall k, l :: 0 <= k < l < |Positions(children, role, typ)| ==>
              Positions(children, role, typ)[k] < Positions(children, role, typ)[l]
    decreases |children|
  {
    if children != [] {
      var n := |children| - 1;
      var init := children[..n];
      PositionsIncreasing(init, role, typ);
      PositionsInRange(init, role, typ);
      var pos0 := Positions(init, role, typ);
      var pos := Positions(children, role, typ);
      assert pos == pos0 + (if IsEligible(children[n], role, typ) then [n] else []);
      forall k, l | 0 <= k < l < |pos|
        ensures pos[k] < pos[l]
      {
        if l < |pos0| {
          assert pos0[k] < pos0[l];
          assert pos[k] == pos0[k] && pos[l] == pos0[l];
        } else {
          assert pos[k] == pos0[k] < n == pos[l];
        }
      }
    }
  }

  /** A child is eligible exactly when its index is among the positions. */
  lemma {:induction false} PositionsExact(children: seq<ResourceNode>, role: string, typ: string)
    ensures forall j :: 0 <= j < |children| ==> (IsEligible(children[j], role, typ) <==> j in Positions(children, role, typ))
    decreases |children|
  {
    if children != [] {
      var n := |children| - 1;
      var init := children[..n];
      PositionsExact(init, role, typ);
      PositionsInRange(init, role, typ);
      var pos0 := Positions(init, role, typ);
      assert n !in pos0;
      assert forall j :: 0 <= j < n ==> children[j] == init[j];
    }
  }

  /** `Matching` takes the children at the positions, one entry per position. */
  lemma {:induction false} MatchingAtPositions(children: seq<ResourceNode>, role: string, typ: string)
    ensures var pos, r := Positions(children, role, typ), Matching(children, role, typ);
      && |pos| == |r|
      && forall k :: 0 <= k < |pos| ==> pos[k] < |children| && r[k] == children[pos[k]]
    decreases |children|
  {
    if children != [] {
      var n := |children| - 1;
      var init := children[..n];
      MatchingAtPositions(init, role, typ);
      assert children == init + [children[n]];
      MatchingAppend(init, [children[n]], role, typ);
      assert Matching([children[n]], role, typ)
             == if IsEligible(children[n], role, typ) then [children[n]] else [];
      var pos0 := Positions(init, role, typ);
      assert forall k :: 0 <= k < |pos0| ==> children[pos0[k]] == init[pos0[k]];
    }
  }

  /** `find` is the head of `filter`: no first match exactly when nothing matches. */
  lemma {:induction false} FirstMatchIsHeadOfMatching(children: seq<ResourceNode>, role: string, typ: string)
    ensures FirstMatch(children, role, typ).None? <==> Matching(children, role, typ) == []
    ensures FirstMatch(children, role, typ).Some? ==>
              FirstMatch(children, role, typ).value == Matching(children, role, typ)[0]
  {
    if children != [] && !IsEligible(children[0], role, typ) {
      FirstMatchIsHeadOfMatching(children[1..], role, typ);
    }
  }

  /** A child without a `role` or a `type` key is never selected, whatever it is asked for. */
  lemma {:induction false} MissingKeyNeverSelected(children: seq<ResourceNode>, node: ResourceNode, role: string, typ: string)
    requires node.role.None? || node.typ.None?
    ensures node !in Matching(children, role, typ)
    ensures FirstMatch(children, role, typ) != Some(node)
  {
    MatchingMembers(children, role, typ);
    FirstMatchSpec(children, role, typ);
  }

  /** The page descriptor of one viewable: its name, its first PDF page and all its thumbnails. */
  function PageOf(v: Viewable): (p: Page)
    ensures p.name == v.name
    ensures p.file.Some? ==> p.file.value in v.children && IsEligible(p.file.value, PdfPageRole, ResourceType)
    ensures |p.thumbnails| <= |v.children|
  {
    Page(v.name, FirstMatch(v.children, PdfPageRole, ResourceType), Matching(v.children, ThumbnailRole, ResourceType))
  }

  /** One page descriptor per viewable, in viewable order. */
  function PagesOf(viewables: seq<Viewable>): (pages: seq<Page>)
    ensures |pages| == |viewables|
  {
    seq(|viewables|, i requires 0 <= i < |viewables| => PageOf(viewables[i]))
  }

  /**
   * What a page descriptor holds, in terms of the viewable's children: the
   * name is copied, the file is a "pdf-page"/"resource" child preceded by no
   * other such child (absent when there is none), and the thumbnails are the
   * "thumbnail"/"resource" children, each as often as it occurs.
   */
  lemma PageOfDescribesViewable(v: Viewable)
    ensures PageOf(v).name == v.name
    ensures PageOf(v).file.None? <==>
              forall k :: 0 <= k < |v.children| ==> !IsEligible(v.children[k], PdfPageRole, ResourceType)
    ensures PageOf(v).file.Some? ==>
              exists k :: 0 <= k < |v.children| && v.children[k] == PageOf(v).file.value
                          && IsEligible(v.children[k], PdfPageRole, ResourceType)
                          && forall j :: 0 <= j < k ==> !IsEligible(v.children[j], PdfPageRole, ResourceType)
    ensures forall x :: x in PageOf(v).thumbnails <==> x in v.children && IsEligible(x, ThumbnailRole, ResourceType)
    ensures forall x :: multiset(PageOf(v).thumbnails)[x]
                        == if IsEligible(x, ThumbnailRole, ResourceType) then multiset(v.children)[x] else 0
  {
    FirstMatchSpec(v.children, PdfPageRole, ResourceType);
    MatchingMembers(v.children, ThumbnailRole, ResourceType);
    forall x {
      MatchingCount(v.children, ThumbnailRole, ResourceType, x);
    }
  }
}
