/**
 * The part of a parsed XML document the listing decoders read: an
 * element's tag, its text, and its child elements in document order.
 * Parsing itself happens outside the model; a decoder receives the
 * parser's outcome as an `Option<Element>`.
 */
module Xml {
  import opened Results

  datatype Element = Element(tag: string, text: string, children: seq<Element>)

  /** `$element->Tag` iterated: the children with that tag, in document order. */
  function Named(children: seq<Element>, tag: string): (r: seq<Element>)
    ensures |r| <= |children|
    ensures forall i :: 0 <= i < |r| ==> r[i].tag == tag
    decreases |children|
  {
    if children == [] then []
    else (if children[0].tag == tag then [children[0]] else []) + Named(children[1..], tag)
  }

  /** Iterating `$element->Tag` visits exactly the children that carry the tag. */
  lemma {:induction false} NamedMembers(children: seq<Element>, tag: string)
    ensures forall e :: e in Named(children, tag) <==> e in children && e.tag == tag
    decreases |children|
  {
    if children != [] {
      NamedMembers(children[1..], tag);
      assert children == [children[0]] + children[1..];
    }
  }

  /** Children none of which carries the tag are all skipped. */
  lemma {:induction false} NamedNone(children: seq<Element>, tag: string)
    requires forall i :: 0 <= i < |children| ==> children[i].tag != tag
    ensures Named(children, tag) == []
    decreases |children|
  {
    if children != [] {
      NamedNone(children[1..], tag);
    }
  }

  /** Children that all carry the tag are all kept. */
  lemma {:induction false} NamedAll(children: seq<Element>, tag: string)
    requires forall i :: 0 <= i < |children| ==> children[i].tag == tag
    ensures Named(children, tag) == children
    decreases |children|
  {
    if children != [] {
      NamedAll(children[1..], tag);
      assert children == [children[0]] + children[1..];
    }
  }

  /** `(string) $element->Tag`: the text of the first child with that tag, or "" when there is none. */
  function ChildText(e: Element, tag: string): string {
    var named := Named(e.children, tag);
    if named == [] then "" else named[0].text
  }

  /**
   * The guard both listing decoders share: the document parsed, and
   * `empty($document->Tag)` is false, so there is a first child with the
   * tag that the parser does not report as empty. `blank` is that
   * emptiness test on an element.
   */
  function Listing(document: Option<Element>, tag: string, blank: Element -> bool): Option<seq<Element>> {
    match document
    case None => None
    case Some(root) =>
      var named := Named(root.children, tag);
      if named == [] || blank(named[0]) then None else Some(named)
  }
}
