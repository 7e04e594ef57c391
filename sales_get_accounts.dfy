/**
 * `SalesGetAccounts::process()`: the accounts listing, keyed by account
 * number. Each `<Account>` child of the root gives the number (the
 * `(int)` cast of its `<Number>` text) and the name (its `<Name>` text);
 * a later account with the same number overwrites the earlier one in
 * place.
 */
module SalesGetAccounts {
  import opened Results
  import opened Php
  import opened Xml

  /** The `['Name' => ..., 'Number' => ...]` record stored for one account. */
  datatype Account = Account(name: string, number: int)

  /** What one `<Account>` element contributes. */
  function AccountOf(e: Element): Account {
    Account(ChildText(e, "Name"), IntCast(ChildText(e, "Number")))
  }

  /** The number each account of the listing is stored under, in order. */
  function Numbers(listing: seq<Element>): (ns: seq<int>)
    ensures |ns| == |listing|
  {
    seq(|listing|, i requires 0 <= i < |listing| => AccountOf(listing[i]).number)
  }

  /** The record each account of the listing contributes, in order. */
  function Records(listing: seq<Element>): (rs: seq<Account>)
    ensures |rs| == |listing|
  {
    seq(|listing|, i requires 0 <= i < |listing| => AccountOf(listing[i]))
  }

  /**
   * The loop over the listing: `$accounts[$id] = [...]` for each account
   * in turn, which is assigning the numbers their records one after the
   * other, as `array_combine` does.
   */
  function Collect(listing: seq<Element>): seq<(int, Account)> {
    Combine(Numbers(listing), Records(listing))
  }

  /** The whole decode: no parse, no `<Account>` child, or an empty first one, gives the empty array. */
  function Decode(document: Option<Element>, blank: Element -> bool): seq<(int, Account)> {
    match Listing(document, "Account", blank)
    case None => []
    case Some(listing) => Collect(listing)
  }

  /** `process()` on a response body; `parse` stands for the XML parser, `None` for its exception. */
  method Process(body: string, parse: string -> Option<Element>, blank: Element -> bool)
    returns (accounts: seq<(int, Account)>)
    ensures accounts == Decode(parse(body), blank)
    ensures parse(body).None? ==> accounts == []
  {
    var listing := Listing(parse(body), "Account", blank);
    if listing.None? {
      return [];
    }
    var xs := listing.value;
    ghost var ns, rs := Numbers(xs), Records(xs);
    accounts := [];
    var i := 0;
    while i < |xs|
      invariant i <= |xs|
      invariant accounts == Combine(ns[..i], rs[..i])
    {
      CombineStep(ns, rs, i);
      var id := IntCast(ChildText(xs[i], "Number"));
      var name := ChildText(xs[i], "Name");
      accounts := Assign(accounts, id, Account(name, id));
      i := i + 1;
    }
    assert ns[..i] == ns && rs[..i] == rs;
  }

  /**
   * The result holds no more entries than the listing has accounts, each
   * one the record of some account of the listing stored under that
   * account's number; and no number twice.
   */
  lemma Stored(listing: seq<Element>)
    ensures |Collect(listing)| <= |listing|
    ensures forall e :: e in Collect(listing) ==> e.0 == e.1.number
    ensures forall e :: e in Collect(listing) ==> exists i :: 0 <= i < |listing| && e.1 == AccountOf(listing[i])
    ensures Distinct(Keys(Collect(listing)))
  {
    var ns, rs := Numbers(listing), Records(listing);
    CombinePairs(ns, rs);
    CombineKeys(ns, rs);
  }

  /** The accounts with number `n` in the listing, in order, as the last one of them wins. */
  predicate LastWith(listing: seq<Element>, n: int, i: nat) {
    && i < |listing|
    && AccountOf(listing[i]).number == n
    && forall j :: i < j < |listing| ==> AccountOf(listing[j]).number != n
  }

  /**
   * Under each number the result holds the last account in the listing
   * with that number; a number no account has is absent.
   */
  lemma LastWins(listing: seq<Element>, n: int)
    ensures forall i: nat :: LastWith(listing, n, i) ==> Lookup(Collect(listing), n) == Some(AccountOf(listing[i]))
    ensures (forall i :: 0 <= i < |listing| ==> AccountOf(listing[i]).number != n) ==> Lookup(Collect(listing), n) == None
  {
    var ns, rs := Numbers(listing), Records(listing);
    CombineLookup(ns, rs);
    forall i: nat | LastWith(listing, n, i)
      ensures Lookup(Collect(listing), n) == Some(AccountOf(listing[i]))
    {
      assert ns[i] == n;
      assert LastOccurrence(ns, i);
    }
    if forall i :: 0 <= i < |listing| ==> AccountOf(listing[i]).number != n {
      CombineKeys(ns, rs);
      LookupKeys(Collect(listing), n);
    }
  }

  /** A document without an `<Account>` child decodes to the empty array, whatever else it holds. */
  lemma NoAccount(root: Element, blank: Element -> bool)
    ensures (forall i :: 0 <= i < |root.children| ==> root.children[i].tag != "Account") ==> Decode(Some(root), blank) == []
  {
    if forall i :: 0 <= i < |root.children| ==> root.children[i].tag != "Account" {
      NamedNone(root.children, "Account");
    }
  }

  /** A `<Number>` without a digit, or no `<Number>` at all, stores the account under 0. */
  lemma NonNumericNumber(e: Element)
    requires forall i :: 0 <= i < |ChildText(e, "Number")| ==> !IsDigit(ChildText(e, "Number")[i])
    ensures AccountOf(e).number == 0
  {
    IntCastNoDigits(ChildText(e, "Number"));
  }

  /** The `<Account>` elements that carry the given accounts, numbers written out in decimal. */
  function AccountElement(a: Account): Element {
    Element("Account", "", [Element("Name", a.name, []), Element("Number", IntString(a.number), [])])
  }

  /** The numbers of the given accounts, in order. */
  function NumbersOf(accounts: seq<Account>): (ns: seq<int>)
    ensures |ns| == |accounts|
  {
    seq(|accounts|, i requires 0 <= i < |accounts| => accounts[i].number)
  }

  /** An account written out as an `<Account>` element reads back as itself. */
  lemma AccountRoundTrip(a: Account)
    ensures AccountOf(AccountElement(a)) == a
  {
    var e := AccountElement(a);
    assert Named(e.children, "Name") == [e.children[0]];
    assert Named(e.children, "Number") == [e.children[1]];
    IntCastIntString(a.number, "");
    assert IntString(a.number) + "" == IntString(a.number);
  }

  /**
   * Accounts with distinct numbers, written out as `<Account>` children
   * of any root, decode to those accounts under their numbers, in order,
   * provided the parser does not call the first one empty.
   */
  lemma RoundTrip(tag: string, text: string, accounts: seq<Account>, blank: Element -> bool)
    requires accounts != [] && !blank(AccountElement(accounts[0]))
    requires Distinct(NumbersOf(accounts))
    ensures Decode(Some(Element(tag, text, seq(|accounts|, i requires 0 <= i < |accounts| => AccountElement(accounts[i])))), blank)
      == Zip(NumbersOf(accounts), accounts)
  {
    var es := seq(|accounts|, i requires 0 <= i < |accounts| => AccountElement(accounts[i]));
    NamedAll(es, "Account");
    forall i | 0 <= i < |accounts|
      ensures AccountOf(es[i]) == accounts[i]
    {
      AccountRoundTrip(accounts[i]);
    }
    assert Records(es) == accounts;
    assert Numbers(es) == NumbersOf(accounts);
    CombineDistinct(NumbersOf(accounts), accounts);
  }

  // ---------------------------------------------------------------------
  // The example: one account, John Smith, number 1234567
  // ---------------------------------------------------------------------

  /** `<Accounts><Account><Name>John Smith</Name><Number>1234567</Number></Account></Accounts>`. */
  lemma WorkedExample(body: string, parse: string -> Option<Element>, blank: Element -> bool)
    requires parse(body) == Some(Element("Accounts", "", [Element("Account", "", [Element("Name", "John Smith", []), Element("Number", "1234567", [])])]))
    requires !blank(Element("Account", "", [Element("Name", "John Smith", []), Element("Number", "1234567", [])]))
    ensures Decode(parse(body), blank) == [(1234567, Account("John Smith", 1234567))]
  {
    var a := Account("John Smith", 1234567);
    IntStringExamples();
    assert [AccountElement(a)] == seq(1, i requires 0 <= i < 1 => AccountElement([a][i]));
    RoundTrip("Accounts", "", [a], blank);
    assert Zip(NumbersOf([a]), [a]) == [(1234567, a)];
  }
}
