/** The part of Python's xml.etree.ElementTree that the extractor relies on,
    over a document that has already been parsed: `Element.iter(tag)`,
    `Element.find(path)` for paths made of plain tags, and `Element.text`. */
module ElementTree {
  import opened Wrappers

  /** A parsed element. `text` is None when the element has no character data
      before its first child (as for `<name></name>`); children are in
      document order. */
  datatype Elem = Elem(tag: string, text: Option<string>, children: seq<Elem>)

  // ---------------------------------------------------------------------------
  // iter(): the element and all its descendants, in document order
  // ---------------------------------------------------------------------------

  /** `e.iter()` with no tag: every element of the subtree, preorder. */
  function Preorder(e: Elem): (r: seq<Elem>)
    decreases e, 1
    ensures |r| >= 1 && r[0] == e
  {
    [e] + PreorderAll(e.children)
  }

  /** The preorder walks of a sequence of siblings, one after the other. */
  function PreorderAll(es: seq<Elem>): seq<Elem>
    decreases es, 0
  {
    if es == [] then [] else Preorder(es[0]) + PreorderAll(es[1..])
  }

  /** `e.iter(tag)`: the element itself if it carries `tag`, then, child by
      child, the matches in each child's subtree. */
  function Iter(e: Elem, tag: string): (r: seq<Elem>)
    decreases e, 1
    ensures forall x :: x in r ==> x.tag == tag
    ensures e.tag == tag ==> |r| >= 1 && r[0] == e
  {
    (if e.tag == tag then [e] else []) + IterAll(e.children, tag)
  }

  function IterAll(es: seq<Elem>, tag: string): (r: seq<Elem>)
    decreases es, 0
    ensures forall x :: x in r ==> x.tag == tag
  {
    if es == [] then [] else Iter(es[0], tag) + IterAll(es[1..], tag)
  }

  // ---------------------------------------------------------------------------
  // Filtering a sequence of elements by tag
  // ---------------------------------------------------------------------------

  /** The elements of `es` that carry `tag`, in their original order. */
  function Filter(es: seq<Elem>, tag: string): (r: seq<Elem>)
    ensures |r| <= |es|
    ensures forall x :: x in r <==> x in es && x.tag == tag
  {
    if es == [] then []
    else (if es[0].tag == tag then [es[0]] else []) + Filter(es[1..], tag)
  }

  lemma {:induction false} FilterAppend(a: seq<Elem>, b: seq<Elem>, tag: string)
    ensures Filter(a + b, tag) == Filter(a, tag) + Filter(b, tag)
  {
    if a == [] {
      assert a + b == b;
    } else {
      assert (a + b)[1..] == a[1..] + b;
      FilterAppend(a[1..], b, tag);
    }
  }

  /** The first element of `Filter(es, tag)` is the first element of `es`
      that carries `tag`. */
  lemma {:induction false} FilterFirst(es: seq<Elem>, tag: string)
    ensures Filter(es, tag) != [] <==> exists k :: 0 <= k < |es| && es[k].tag == tag
    ensures Filter(es, tag) != [] ==>
      exists k :: 0 <= k < |es| && es[k] == Filter(es, tag)[0] && es[k].tag == tag &&
        forall j :: 0 <= j < k ==> es[j].tag != tag
  {
    if es != [] {
      FilterFirst(es[1..], tag);
      if es[0].tag != tag && Filter(es, tag) != [] {
        var k :| 0 <= k < |es[1..]| && es[1..][k] == Filter(es[1..], tag)[0] && es[1..][k].tag == tag &&
          forall j :: 0 <= j < k ==> es[1..][j].tag != tag;
        assert es[k + 1] == Filter(es, tag)[0];
        assert forall j :: 0 <= j < k + 1 ==> es[j].tag != tag by {
          forall j | 0 <= j < k + 1 ensures es[j].tag != tag {
            if j > 0 { assert es[j] == es[1..][j - 1]; }
          }
        }
      }
      if es[0].tag != tag && Filter(es, tag) == [] {
        forall k | 0 <= k < |es| ensures es[k].tag != tag {
          if k > 0 { assert es[k] == es[1..][k - 1]; }
        }
      }
    }
  }

  /** `iter(tag)` is the full preorder walk with everything not tagged `tag`
      left out. */
  lemma {:induction false} IterIsFilteredPreorder(e: Elem, tag: string)
    decreases e, 1
    ensures Iter(e, tag) == Filter(Preorder(e), tag)
  {
    IterAllIsFilteredPreorder(e.children, tag);
    FilterAppend([e], PreorderAll(e.children), tag);
  }

  lemma {:induction false} IterAllIsFilteredPreorder(es: seq<Elem>, tag: string)
    decreases es, 0
    ensures IterAll(es, tag) == Filter(PreorderAll(es), tag)
  {
    if es != [] {
      IterIsFilteredPreorder(es[0], tag);
      IterAllIsFilteredPreorder(es[1..], tag);
      FilterAppend(Preorder(es[0]), PreorderAll(es[1..]), tag);
    }
  }

  /** An element is reached by `iter(tag)` exactly when it is in the subtree
      and carries `tag`. */
  lemma IterMembership(e: Elem, tag: string, x: Elem)
    ensures x in Iter(e, tag) <==> x in Preorder(e) && x.tag == tag
  {
    IterIsFilteredPreorder(e, tag);
  }

  // ---------------------------------------------------------------------------
  // find(path) for a path of plain tags ("name", "bndbox/xmin")
  // ---------------------------------------------------------------------------

  /** `e.find(path)`, the path already split at '/': with an empty path `e`
      itself, otherwise the first match found among the children. */
  function Find(e: Elem, path: seq<string>): (r: Option<Elem>)
    decreases |path|, e, 1
    ensures r.Some? && path != [] ==> r.value.tag == path[|path| - 1]
  {
    if path == [] then Some(e) else FindAmong(e.children, path)
  }

  /** The first element of `es` that carries `path[0]` and in which the rest
      of the path matches, with that match. */
  function FindAmong(es: seq<Elem>, path: seq<string>): (r: Option<Elem>)
    requires path != []
    decreases |path|, es, 0
    ensures r.Some? ==> r.value.tag == path[|path| - 1]
  {
    if es == [] then None
    else if es[0].tag == path[0] && Find(es[0], path[1..]).Some? then Find(es[0], path[1..])
    else FindAmong(es[1..], path)
  }

  /** `find(tag)` with a one-tag path returns the first direct child carrying
      that tag, and None exactly when no child carries it. */
  lemma FindChild(e: Elem, tag: string)
    ensures Find(e, [tag]).Some? <==> exists k :: 0 <= k < |e.children| && e.children[k].tag == tag
    ensures Find(e, [tag]).Some? ==>
      exists k :: (0 <= k < |e.children| && e.children[k] == Find(e, [tag]).value &&
        e.children[k].tag == tag && forall j :: 0 <= j < k ==> e.children[j].tag != tag)
  {
    FindAmongOneTag(e.children, tag);
  }

  lemma {:induction false} FindAmongOneTag(es: seq<Elem>, tag: string)
    ensures FindAmong(es, [tag]).Some? <==> exists k :: 0 <= k < |es| && es[k].tag == tag
    ensures FindAmong(es, [tag]).Some? ==>
      exists k :: (0 <= k < |es| && es[k] == FindAmong(es, [tag]).value &&
        es[k].tag == tag && forall j :: 0 <= j < k ==> es[j].tag != tag)
  {
    if es != [] {
      assert [tag][1..] == [];
      FindAmongOneTag(es[1..], tag);
      if es[0].tag != tag {
        forall k | 0 < k < |es| ensures es[k] == es[1..][k - 1] { }
        if FindAmong(es, [tag]).Some? {
          var k :| 0 <= k < |es[1..]| && es[1..][k] == FindAmong(es[1..], [tag]).value &&
            es[1..][k].tag == tag && forall j :: 0 <= j < k ==> es[1..][j].tag != tag;
          assert es[k + 1] == FindAmong(es, [tag]).value;
          assert forall j :: 0 <= j < k + 1 ==> es[j].tag != tag by {
            forall j | 0 <= j < k + 1 ensures es[j].tag != tag {
              if j > 0 { assert es[j] == es[1..][j - 1]; }
            }
          }
        }
      }
    }
  }

  /** When the first child tagged `tag` matches the rest of the path, `find`
      descends into that child and returns its match. */
  lemma {:induction false} FindAmongFirstTagged(es: seq<Elem>, tag: string, rest: seq<string>, k: nat)
    requires k < |es| && es[k].tag == tag
    requires forall j :: 0 <= j < k ==> es[j].tag != tag
    requires Find(es[k], rest).Some?
    ensures FindAmong(es, [tag] + rest) == Find(es[k], rest)
    decreases k
  {
    var path := [tag] + rest;
    assert path[0] == tag && path[1..] == rest;
    if k > 0 {
      assert forall j :: 0 <= j < k - 1 ==> es[1..][j] == es[j + 1];
      FindAmongFirstTagged(es[1..], tag, rest, k - 1);
    }
  }

  // ---------------------------------------------------------------------------
  // iterfind(path): the reference definition that find takes the first of
  // ---------------------------------------------------------------------------

  /** One path step: for each element of `es` in turn, its children that
      carry `tag`, in document order. */
  function ChildStep(es: seq<Elem>, tag: string): seq<Elem>
  {
    if es == [] then [] else Filter(es[0].children, tag) + ChildStep(es[1..], tag)
  }

  /** `iterfind(path)` from the elements `es`: every element the path
      reaches, in document order. */
  function SelectPath(es: seq<Elem>, path: seq<string>): seq<Elem>
    decreases |path|
  {
    if path == [] then es else SelectPath(ChildStep(es, path[0]), path[1..])
  }

  function First(es: seq<Elem>): Option<Elem> {
    if es == [] then None else Some(es[0])
  }

  lemma {:induction false} ChildStepAppend(a: seq<Elem>, b: seq<Elem>, tag: string)
    ensures ChildStep(a + b, tag) == ChildStep(a, tag) + ChildStep(b, tag)
  {
    if a == [] {
      assert a + b == b;
    } else {
      assert (a + b)[1..] == a[1..] + b;
      ChildStepAppend(a[1..], b, tag);
    }
  }

  lemma {:induction false} SelectPathAppend(a: seq<Elem>, b: seq<Elem>, path: seq<string>)
    decreases |path|
    ensures SelectPath(a + b, path) == SelectPath(a, path) + SelectPath(b, path)
  {
    if path != [] {
      ChildStepAppend(a, b, path[0]);
      SelectPathAppend(ChildStep(a, path[0]), ChildStep(b, path[0]), path[1..]);
    }
  }

  /** `find(path)` is the first element `iterfind(path)` yields, or None when
      it yields nothing. */
  lemma {:induction false} FindIsFirstOfIterfind(e: Elem, path: seq<string>)
    decreases |path|, e, 1
    ensures Find(e, path) == First(SelectPath([e], path))
  {
    if path != [] {
      assert [e][1..] == [];
      assert ChildStep([e], path[0]) == Filter(e.children, path[0]);
      FindAmongIsFirst(e.children, path);
    }
  }

  lemma {:induction false} FindAmongIsFirst(es: seq<Elem>, path: seq<string>)
    requires path != []
    decreases |path|, es, 0
    ensures FindAmong(es, path) == First(SelectPath(Filter(es, path[0]), path[1..]))
  {
    if es != [] {
      var head := if es[0].tag == path[0] then [es[0]] else [];
      var rest := Filter(es[1..], path[0]);
      assert Filter(es, path[0]) == head + rest;
      SelectPathAppend(head, rest, path[1..]);
      FindAmongIsFirst(es[1..], path);
      var a, b := SelectPath(head, path[1..]), SelectPath(rest, path[1..]);
      assert First(a + b) == if a == [] then First(b) else First(a) by {
        if a != [] { assert (a + b)[0] == a[0]; } else { assert a + b == b; }
      }
      if es[0].tag == path[0] {
        FindIsFirstOfIterfind(es[0], path[1..]);
      } else {
        EmptySelect(path[1..]);
      }
    } else {
      EmptySelect(path[1..]);
    }
  }

  lemma {:induction false} EmptySelect(path: seq<string>)
    decreases |path|
    ensures SelectPath([], path) == []
  {
    if path != [] {
      EmptySelect(path[1..]);
    }
  }
}
