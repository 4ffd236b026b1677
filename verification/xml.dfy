/**
 * The slice of ElementTree the harvester uses: an element with a tag, an
 * optional text and its children in document order, and the `find` /
 * `findall` lookups among an element's direct children. The same tree is
 * what the manifest is parsed into and what the catalog is built as.
 */
module Xml {
  import opened Options
  import opened Text

  datatype Element = Element(tag: Str, text: Option<Str>, children: seq<Element>)

  /** An element with text and no children, as `SubElement(parent, tag).text = text` makes. */
  function Leaf(tag: Str, text: Option<Str>): Element {
    Element(tag, text, [])
  }

  /** The position of the first element tagged `tag`, or `|es|` when there is none. */
  function FirstTagged(es: seq<Element>, tag: Str): (k: nat)
    ensures k <= |es|
    ensures k < |es| ==> es[k].tag == tag
    ensures forall j :: 0 <= j < k ==> es[j].tag != tag
  {
    if es == [] || es[0].tag == tag then 0 else 1 + FirstTagged(es[1..], tag)
  }

  /** `parent.find(tag)`, given the parent's children: the first child tagged `tag`. */
  function Find(children: seq<Element>, tag: Str): (r: Option<Element>)
    ensures r.None? <==> forall j :: 0 <= j < |children| ==> children[j].tag != tag
    ensures r.Some? ==> r.value.tag == tag && r.value in children
  {
    var k := FirstTagged(children, tag);
    if k < |children| then Some(children[k]) else None
  }

  /** The elements of `es` tagged `tag`, in order. */
  function Tagged(es: seq<Element>, tag: Str): (r: seq<Element>)
    ensures |r| <= |es|
    ensures forall j :: 0 <= j < |r| ==> r[j].tag == tag && r[j] in es
  {
    if es == [] then []
    else (if es[0].tag == tag then [es[0]] else []) + Tagged(es[1..], tag)
  }

  lemma {:induction false} TaggedAppend(a: seq<Element>, b: seq<Element>, tag: Str)
    ensures Tagged(a + b, tag) == Tagged(a, tag) + Tagged(b, tag)
  {
    if a == [] {
      assert a + b == b;
    } else {
      assert (a + b)[0] == a[0];
      assert (a + b)[1..] == a[1..] + b;
      TaggedAppend(a[1..], b, tag);
      var h := if a[0].tag == tag then [a[0]] else [];
      assert Tagged(a + b, tag) == h + Tagged(a[1..] + b, tag);
      assert Tagged(a, tag) == h + Tagged(a[1..], tag);
      AppendAssoc(h, Tagged(a[1..], tag), Tagged(b, tag));
    }
  }

  lemma {:induction false} TaggedNone(es: seq<Element>, tag: Str)
    requires forall j :: 0 <= j < |es| ==> es[j].tag != tag
    ensures Tagged(es, tag) == []
  {
    if es != [] {
      TaggedNone(es[1..], tag);
    }
  }

  /** The texts of `es`, in order. */
  function Texts(es: seq<Element>): (r: seq<Option<Str>>)
    ensures |r| == |es|
    ensures forall j :: 0 <= j < |es| ==> r[j] == es[j].text
  {
    if es == [] then [] else [es[0].text] + Texts(es[1..])
  }

  /**
   * `[e.text for e in parent.findall(outer + '/' + inner)]`: the `inner`
   * children of every `outer` child, grouped by parent, in document order.
   */
  function PathTexts(outers: seq<Element>, inner: Str): seq<Option<Str>> {
    if outers == [] then []
    else Texts(Tagged(outers[0].children, inner)) + PathTexts(outers[1..], inner)
  }

  /** `es` without the elements tagged `tag`: a document where that element is absent. */
  function Without(es: seq<Element>, tag: Str): (r: seq<Element>)
    ensures forall j :: 0 <= j < |r| ==> r[j].tag != tag
  {
    if es == [] then []
    else (if es[0].tag == tag then [] else [es[0]]) + Without(es[1..], tag)
  }

  /** Removing the elements tagged `gone` does not move the first element of another tag. */
  lemma {:induction false} FindWithout(es: seq<Element>, gone: Str, tag: Str)
    requires gone != tag
    ensures Find(Without(es, gone), tag) == Find(es, tag)
  {
    if es != [] {
      FindWithout(es[1..], gone, tag);
      var rest := Without(es[1..], gone);
      FindCons(es, tag);
      if es[0].tag == gone {
        assert Without(es, gone) == [] + rest;
        assert [] + rest == rest;
      } else {
        assert Without(es, gone) == [es[0]] + rest;
        assert ([es[0]] + rest)[0] == es[0] && ([es[0]] + rest)[1..] == rest;
        FindCons([es[0]] + rest, tag);
      }
    }
  }

  /** `find` looks at the first child, then at the rest. */
  lemma {:induction false} FindCons(es: seq<Element>, tag: Str)
    requires es != []
    ensures Find(es, tag) == if es[0].tag == tag then Some(es[0]) else Find(es[1..], tag)
  {
    if es[0].tag != tag {
      assert FirstTagged(es, tag) == 1 + FirstTagged(es[1..], tag);
    }
  }

  /** Removing the elements tagged `gone` does not change which elements carry another tag. */
  lemma {:induction false} TaggedWithout(es: seq<Element>, gone: Str, tag: Str)
    requires gone != tag
    ensures Tagged(Without(es, gone), tag) == Tagged(es, tag)
  {
    if es != [] {
      TaggedWithout(es[1..], gone, tag);
      var rest := Without(es[1..], gone);
      if es[0].tag == gone {
        assert Without(es, gone) == rest;
      } else {
        assert Without(es, gone) == [es[0]] + rest;
        assert ([es[0]] + rest)[0] == es[0];
        assert ([es[0]] + rest)[1..] == rest;
      }
    }
  }
}
