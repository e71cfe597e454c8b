/** The XML side: an ElementTree element tree, the document order in which
    `Element.iter()` visits it, and "the last element with a given tag", which
    is what a loop that overwrites a variable on every match ends up holding. */
module Xml {
  import opened Wrappers

  /** An element: its tag, its text (None when it has no character data before
      its first child), and its child elements in document order. */
  datatype Element = Element(tag: string, text: Option<string>, children: seq<Element>)

  /** `e.iter()`: e itself, then its descendants in document order
      (IterCoversTree states that every descendant is visited). */
  function Iter(e: Element): (es: seq<Element>)
    ensures |es| > 0 && es[0] == e
    decreases e, 1
  {
    [e] + IterAll(e.children)
  }

  /** The iterations of es, one after the other. */
  function IterAll(es: seq<Element>): seq<Element>
    decreases es, 0
  {
    if |es| == 0 then [] else Iter(es[0]) + IterAll(es[1..])
  }

  /** x is e or lies below it at any depth. */
  predicate Descendant(e: Element, x: Element)
    decreases e
  {
    x == e || exists i :: 0 <= i < |e.children| && Descendant(e.children[i], x)
  }

  /** `iter()` visits exactly the element and all its descendants. */
  lemma {:induction false} IterCoversTree(e: Element, x: Element)
    ensures x in Iter(e) <==> Descendant(e, x)
    decreases e, 1
  {
    IterAllCoversForest(e.children, x);
  }

  lemma {:induction false} IterAllCoversForest(es: seq<Element>, x: Element)
    ensures x in IterAll(es) <==> exists i :: 0 <= i < |es| && Descendant(es[i], x)
    decreases es, 0
  {
    if |es| > 0 {
      IterCoversTree(es[0], x);
      IterAllCoversForest(es[1..], x);
      if exists i :: 0 <= i < |es| && Descendant(es[i], x) {
        var i :| 0 <= i < |es| && Descendant(es[i], x);
        if i > 0 {
          assert es[1..][i - 1] == es[i];
        }
      }
      if exists i :: 0 <= i < |es[1..]| && Descendant(es[1..][i], x) {
        var i :| 0 <= i < |es[1..]| && Descendant(es[1..][i], x);
        assert es[i + 1] == es[1..][i];
      }
    }
  }

  /** The elements of es with the given tag, in order: every element with
      the tag is kept as often as it occurs, every other one is dropped. */
  function Tagged(es: seq<Element>, tag: string): (r: seq<Element>)
    ensures forall x :: multiset(r)[x] == if x.tag == tag then multiset(es)[x] else 0
    ensures forall x :: x in r <==> x in es && x.tag == tag
    ensures |r| <= |es|
  {
    if |es| == 0 then []
    else
      var r := (if es[0].tag == tag then [es[0]] else []) + Tagged(es[1..], tag);
      assert es == [es[0]] + es[1..];
      r
  }

  /** `e.iter(tag)`: every element of the tree rooted at e that carries the
      tag, each as often as `iter()` visits it. */
  function IterTag(e: Element, tag: string): (r: seq<Element>)
    ensures forall x :: x in r <==> Descendant(e, x) && x.tag == tag
    ensures forall x :: multiset(r)[x] == if x.tag == tag then multiset(Iter(e))[x] else 0
  {
    var r := Tagged(Iter(e), tag);
    assert forall x :: x in r <==> Descendant(e, x) && x.tag == tag by {
      forall x
        ensures x in r <==> Descendant(e, x) && x.tag == tag
      {
        IterCoversTree(e, x);
      }
    }
    r
  }

  /** Index i holds the last element of es carrying the tag. */
  predicate LastAt(es: seq<Element>, i: int, tag: string) {
    0 <= i < |es| && es[i].tag == tag && forall j :: i < j < |es| ==> es[j].tag != tag
  }

  /** The last element of es carrying the tag, or None when none does. */
  function LastTagged(es: seq<Element>, tag: string): (r: Option<Element>)
    ensures r.None? <==> forall i :: 0 <= i < |es| ==> es[i].tag != tag
    ensures r.Some? ==> exists i :: LastAt(es, i, tag) && es[i] == r.value
  {
    if |es| == 0 then None
    else if es[|es| - 1].tag == tag then
      assert LastAt(es, |es| - 1, tag);
      Some(es[|es| - 1])
    else
      var init := es[..|es| - 1];
      var r := LastTagged(init, tag);
      assert forall j :: 0 <= j < |init| ==> es[j] == init[j];
      assert r.Some? ==> exists i :: LastAt(es, i, tag) && es[i] == r.value by {
        if r.Some? {
          var i :| LastAt(init, i, tag) && init[i] == r.value;
          assert LastAt(es, i, tag);
        }
      }
      r
  }

  /** Appending one element: it is the last match if it carries the tag. */
  lemma LastTaggedSnoc(es: seq<Element>, e: Element, tag: string)
    ensures LastTagged(es + [e], tag) == if e.tag == tag then Some(e) else LastTagged(es, tag)
  {
    assert (es + [e])[..|es|] == es;
  }

  /** Appending a sequence: a match in the later part overrides any earlier one. */
  lemma {:induction false} LastTaggedAppend(a: seq<Element>, b: seq<Element>, tag: string)
    ensures LastTagged(a + b, tag) ==
      if LastTagged(b, tag).Some? then LastTagged(b, tag) else LastTagged(a, tag)
    decreases |b|
  {
    if |b| == 0 {
      assert a + b == a;
    } else {
      var init := b[..|b| - 1];
      var last := b[|b| - 1];
      assert b == init + [last];
      assert a + b == (a + init) + [last];
      LastTaggedSnoc(a + init, last, tag);
      LastTaggedSnoc(init, last, tag);
      LastTaggedAppend(a, init, tag);
    }
  }
}
