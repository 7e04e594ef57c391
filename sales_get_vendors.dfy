/**
 * `SalesGetVendors::process()`: the vendor numbers, as a plain list. Each
 * `<Vendor>` child of the root contributes the `(int)` cast of its text,
 * in document order; repeats are kept.
 */
module SalesGetVendors {
  import opened Results
  import opened Php
  import opened Xml

  /** The vendor numbers of a listing: `(int) $Vendor` for each `<Vendor>` in turn. */
  function Ids(listing: seq<Element>): seq<int> {
    seq(|listing|, i requires 0 <= i < |listing| => IntCast(listing[i].text))
  }

  /** The whole decode: no parse, no `<Vendor>` child, or an empty first one, gives the empty list. */
  function Decode(document: Option<Element>, blank: Element -> bool): seq<int> {
    match Listing(document, "Vendor", blank)
    case None => []
    case Some(listing) => Ids(listing)
  }

  /** `process()` on a response body; `parse` stands for the XML parser, `None` for its exception. */
  method Process(body: string, parse: string -> Option<Element>, blank: Element -> bool)
    returns (vendors: seq<int>)
    ensures vendors == Decode(parse(body), blank)
    ensures parse(body).None? ==> vendors == []
  {
    var listing := Listing(parse(body), "Vendor", blank);
    if listing.None? {
      return [];
    }
    var xs := listing.value;
    vendors := [];
    var i := 0;
    while i < |xs|
      invariant i <= |xs|
      invariant |vendors| == i
      invariant forall j :: 0 <= j < i ==> vendors[j] == IntCast(xs[j].text)
    {
      vendors := vendors + [IntCast(xs[i].text)];
      i := i + 1;
    }
  }

  /**
   * A document with `<Vendor>` children, the first of them not empty,
   * gives one number per `<Vendor>`, in document order: the i-th number
   * is the cast of the i-th `<Vendor>`'s text, whatever other children
   * the root has. Without a `<Vendor>` child the list is empty.
   */
  lemma Listed(root: Element, blank: Element -> bool)
    ensures var vs := Named(root.children, "Vendor");
      vs != [] && !blank(vs[0]) ==>
        |Decode(Some(root), blank)| == |vs| &&
        forall i :: 0 <= i < |vs| ==> Decode(Some(root), blank)[i] == IntCast(vs[i].text)
    ensures (forall i :: 0 <= i < |root.children| ==> root.children[i].tag != "Vendor") ==> Decode(Some(root), blank) == []
  {
    if forall i :: 0 <= i < |root.children| ==> root.children[i].tag != "Vendor" {
      NamedNone(root.children, "Vendor");
    }
  }

  /** The `<Vendor>` elements that carry the given numbers, each written out in decimal. */
  function VendorElements(ids: seq<int>): (es: seq<Element>)
    ensures |es| == |ids|
    ensures forall i :: 0 <= i < |es| ==> es[i].tag == "Vendor"
  {
    seq(|ids|, i requires 0 <= i < |ids| => Element("Vendor", IntString(ids[i]), []))
  }

  /**
   * Writing numbers out as `<Vendor>` children and decoding them gives
   * the numbers back, in order and with repeats, provided the parser
   * does not call the first one empty.
   */
  lemma RoundTrip(tag: string, text: string, ids: seq<int>, blank: Element -> bool)
    requires ids != [] && !blank(VendorElements(ids)[0])
    ensures Decode(Some(Element(tag, text, VendorElements(ids))), blank) == ids
  {
    var es := VendorElements(ids);
    NamedAll(es, "Vendor");
    forall i | 0 <= i < |ids|
      ensures IntCast(es[i].text) == ids[i]
    {
      IntCastIntString(ids[i], "");
      assert IntString(ids[i]) + "" == IntString(ids[i]);
    }
  }

  // ---------------------------------------------------------------------
  // The examples: one vendor, then two
  // ---------------------------------------------------------------------

  /** `<Vendors><Vendor>1234567</Vendor></Vendors>` gives [1234567]. */
  lemma SingleVendor(body: string, parse: string -> Option<Element>, blank: Element -> bool)
    requires parse(body) == Some(Element("Vendors", "", [Element("Vendor", "1234567", [])]))
    requires !blank(Element("Vendor", "1234567", []))
    ensures Decode(parse(body), blank) == [1234567]
  {
    IntStringExamples();
    assert VendorElements([1234567]) == [Element("Vendor", "1234567", [])];
    RoundTrip("Vendors", "", [1234567], blank);
  }

  /** Two `<Vendor>` children, 1234567 then 9876543, give [1234567, 9876543]. */
  lemma TwoVendors(body: string, parse: string -> Option<Element>, blank: Element -> bool)
    requires parse(body) == Some(Element("Vendors", "", [Element("Vendor", "1234567", []), Element("Vendor", "9876543", [])]))
    requires !blank(Element("Vendor", "1234567", []))
    ensures Decode(parse(body), blank) == [1234567, 9876543]
  {
    IntStringExamples();
    assert VendorElements([1234567, 9876543]) == [Element("Vendor", "1234567", []), Element("Vendor", "9876543", [])];
    RoundTrip("Vendors", "", [1234567, 9876543], blank);
  }
}
