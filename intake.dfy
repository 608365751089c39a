/** `register_order` (foodcartapp/views.py): the checks on the JSON payload, in
    the order the view makes them, then the writes of the order and its items.
    `phonenumbers.parse(text, 'RU')` with `is_valid_number` is an oracle. */
module Intake {
  import opened Records
  import opened Collections
  import opened Queries
  import opened OrderStore

  /** A scalar field's value as far as the checks tell values apart: JSON null,
      an empty list, or text. */
  datatype TextField = NullText | EmptyListText | Text(text: string)

  /** One element of `products`. */
  datatype Entry = Entry(product: int, quantity: int)

  /** The `products` value: null, a list (`[]` is `ProductList([])`), or any other JSON value. */
  datatype ProductsField = NullProducts | ProductList(entries: seq<Entry>) | NotAListValue

  /** The request body; None stands for an absent key. */
  datatype Payload = Payload(products: Option<ProductsField>, firstname: Option<TextField>,
                             lastname: Option<TextField>, phonenumber: Option<TextField>,
                             address: Option<TextField>)

  const FieldNames: seq<string> := ["products", "firstname", "lastname", "phonenumber", "address"]

  predicate BlankText(f: Option<TextField>) {
    f.None? || f.value.NullText? || f.value.EmptyListText?
  }

  /** The k-th field is absent, None or `[]`. */
  predicate IsBlank(p: Payload, k: nat)
    requires k < |FieldNames|
  {
    if k == 0 then p.products.None? || p.products.value.NullProducts? || p.products.value == ProductList([])
    else if k == 1 then BlankText(p.firstname)
    else if k == 2 then BlankText(p.lastname)
    else if k == 3 then BlankText(p.phonenumber)
    else BlankText(p.address)
  }

  /** The names of the blank fields among the first `n`, in field order. */
  function MissingAmong(p: Payload, n: nat): seq<string>
    requires n <= |FieldNames|
  {
    if n == 0 then [] else MissingAmong(p, n - 1) + (if IsBlank(p, n - 1) then [FieldNames[n - 1]] else [])
  }

  function MissingFields(p: Payload): seq<string> {
    MissingAmong(p, |FieldNames|)
  }

  lemma {:induction false} MissingAmongMeaning(p: Payload, n: nat)
    requires n <= |FieldNames|
    ensures forall k :: 0 <= k < |FieldNames| ==> (FieldNames[k] in MissingAmong(p, n) <==> k < n && IsBlank(p, k))
    ensures Distinct(MissingAmong(p, n))
  {
    assert Distinct(FieldNames);
    if n > 0 {
      MissingAmongMeaning(p, n - 1);
      var m := MissingAmong(p, n - 1);
      if IsBlank(p, n - 1) {
        assert FieldNames[n - 1] !in m;
        var e := m + [FieldNames[n - 1]];
        forall i, j | 0 <= i < j < |e| ensures e[i] != e[j] {
          if j == |m| { assert e[i] in m; }
        }
      }
    }
  }

  /** The position of a field name in `FieldNames`. */
  function FieldIndex(name: string): (k: nat)
    requires name in FieldNames
    ensures k < |FieldNames| && FieldNames[k] == name
  {
    if name == "products" then 0
    else if name == "firstname" then 1
    else if name == "lastname" then 2
    else if name == "phonenumber" then 3
    else 4
  }

  /** The names gathered from the first `n` fields come in field order. */
  lemma {:induction false} MissingAmongOrdered(p: Payload, n: nat)
    requires n <= |FieldNames|
    ensures forall s :: s in MissingAmong(p, n) ==> s in FieldNames && FieldIndex(s) < n
    ensures forall a, b :: 0 <= a < b < |MissingAmong(p, n)| ==>
              FieldIndex(MissingAmong(p, n)[a]) < FieldIndex(MissingAmong(p, n)[b])
  {
    if n > 0 {
      MissingAmongOrdered(p, n - 1);
      var m := MissingAmong(p, n - 1);
      if IsBlank(p, n - 1) {
        var e := m + [FieldNames[n - 1]];
        assert FieldIndex(FieldNames[n - 1]) == n - 1;
        forall s | s in e ensures s in FieldNames && FieldIndex(s) < n {
          if s != FieldNames[n - 1] { assert s in m; }
        }
        forall a, b | 0 <= a < b < |e| ensures FieldIndex(e[a]) < FieldIndex(e[b]) {
          assert e[a] == m[a] && e[a] in m;
          if b < |m| { assert e[b] == m[b]; }
        }
      }
    }
  }

  /** The error lists exactly the blank fields, each once and in the order
      products, firstname, lastname, phonenumber, address, and is empty only
      when every field is given. */
  lemma MissingFieldsMeaning(p: Payload)
    ensures forall k :: 0 <= k < |FieldNames| ==> (FieldNames[k] in MissingFields(p) <==> IsBlank(p, k))
    ensures Distinct(MissingFields(p))
    ensures forall s :: s in MissingFields(p) ==> s in FieldNames
    ensures forall a, b :: 0 <= a < b < |MissingFields(p)| ==>
              FieldIndex(MissingFields(p)[a]) < FieldIndex(MissingFields(p)[b])
    ensures MissingFields(p) == [] <==> forall k :: 0 <= k < |FieldNames| ==> !IsBlank(p, k)
  {
    MissingAmongMeaning(p, |FieldNames|);
    MissingAmongOrdered(p, |FieldNames|);
    if MissingFields(p) != [] {
      assert MissingFields(p)[0] in MissingFields(p);
      assert forall s :: s in MissingAmong(p, |FieldNames|) ==> s in FieldNames by {
        MissingAmongWithin(p, |FieldNames|);
      }
    }
  }

  /** No name is listed exactly when every field is given. */
  lemma NoneMissing(p: Payload)
    ensures MissingFields(p) == [] <==> forall k :: 0 <= k < |FieldNames| ==> !IsBlank(p, k)
  {
    MissingFieldsMeaning(p);
  }

  lemma {:induction false} MissingAmongWithin(p: Payload, n: nat)
    requires n <= |FieldNames|
    ensures forall s :: s in MissingAmong(p, n) ==> s in FieldNames
  {
    if n > 0 { MissingAmongWithin(p, n - 1); }
  }

  /** `Product.objects.last()`: the product with the largest id (the default
      ordering is by primary key), None for an empty table. */
  function LastProduct(catalog: seq<Product>): (r: Option<Product>)
    ensures r.None? <==> catalog == []
    ensures r.Some? ==> r.value in catalog && forall p :: p in catalog ==> p.id <= r.value.id
  {
    if catalog == [] then None
    else
      var rest := LastProduct(catalog[1..]);
      assert catalog == [catalog[0]] + catalog[1..];
      if rest.None? || catalog[0].id >= rest.value.id then Some(catalog[0]) else rest
  }

  /** `Product.objects.get(id=id)`; None stands for DoesNotExist. */
  function ProductById(catalog: seq<Product>, id: int): (r: Option<Product>)
    ensures r.None? <==> forall p :: p in catalog ==> p.id != id
    ensures r.Some? ==> r.value in catalog && r.value.id == id
  {
    if catalog == [] then None
    else if catalog[0].id == id then Some(catalog[0])
    else
      assert catalog == [catalog[0]] + catalog[1..];
      ProductById(catalog[1..], id)
  }

  /** The first entry's product id above `max`, the one the check rejects. */
  function FirstAbove(entries: seq<Entry>, max: int): (r: Option<int>)
    ensures r.None? <==> forall k :: 0 <= k < |entries| ==> entries[k].product <= max
    ensures r.Some? ==> (r.value > max &&
                         exists k :: 0 <= k < |entries| && entries[k].product == r.value &&
                                     forall q :: 0 <= q < k ==> entries[q].product <= max)
  {
    if entries == [] then None
    else if entries[0].product > max then Some(entries[0].product)
    else
      var rest := FirstAbove(entries[1..], max);
      assert forall k :: 0 < k < |entries| ==> entries[k] == entries[1..][k - 1];
      assert rest.Some? ==>
               exists k :: 0 <= k < |entries| && entries[k].product == rest.value &&
                           forall q :: 0 <= q < k ==> entries[q].product <= max
      by {
        if rest.Some? {
          var k :| 0 <= k < |entries[1..]| && entries[1..][k].product == rest.value &&
                   forall q :: 0 <= q < k ==> entries[1..][q].product <= max;
          assert entries[k + 1].product == rest.value;
          assert forall q :: 0 <= q < k + 1 ==> entries[q].product <= max;
        }
      }
      rest
  }

  /** What `phonenumbers` makes of the text: it raises, or it parses and
      `is_valid_number` answers. */
  datatype PhoneParse = Unparseable | Parsed(valid: bool)

  /** The causes of a 400 response. */
  datatype IntakeError = MissingFieldsError(names: seq<string>) | NotAList | UnknownProduct(id: int)
                       | InvalidPhone(phonenumber: string)

  /** The exceptions that escape the view (a 500 response). */
  datatype Fault = NoProducts | PhoneUnparseable | ProductDoesNotExist(id: int) | PriceNotNull

  datatype Response = Ok | BadRequest(error: IntakeError) | ServerError(fault: Fault)

  /** The values the view goes on to store. */
  datatype Draft = Draft(entries: seq<Entry>, firstname: string, lastname: string, phonenumber: string,
                         address: string)

  /** How the checks end, before anything is written. */
  datatype Screening = Refused(error: IntakeError) | Raised(fault: Fault) | Passed(draft: Draft)

  function TextOf(f: Option<TextField>): string {
    if f.Some? && f.value.Text? then f.value.text else ""
  }

  /** The checks of `register_order`: blank fields; `products` a list; every
      product id at most `Product.objects.last().id` (which raises on an empty
      catalogue); then the phone number. */
  function Screen(p: Payload, catalog: seq<Product>, phone: string -> PhoneParse): Screening {
    var missing := MissingFields(p);
    if missing != [] then Refused(MissingFieldsError(missing))
    else
      assert !IsBlank(p, 0) by { NoneMissing(p); }
      if !p.products.value.ProductList? then Refused(NotAList)
      else
        var entries := p.products.value.entries;
        if catalog == [] then Raised(NoProducts)
        else
          var above := FirstAbove(entries, LastProduct(catalog).value.id);
          if above.Some? then Refused(UnknownProduct(above.value))
          else
            var number := TextOf(p.phonenumber);
            match phone(number)
            case Unparseable => Raised(PhoneUnparseable)
            case Parsed(valid) =>
              if number == "" || !valid then Refused(InvalidPhone(number))
              else Passed(Draft(entries, TextOf(p.firstname), TextOf(p.lastname), number, TextOf(p.address)))
  }

  /** What passes: all five fields given, a non-empty product list, a
      non-empty catalogue with no id above its largest, and a phone number
      that parses as valid. */
  lemma ScreenPassed(p: Payload, catalog: seq<Product>, phone: string -> PhoneParse)
    ensures Screen(p, catalog, phone).Passed? <==>
              (forall k :: 0 <= k < |FieldNames| ==> !IsBlank(p, k)) &&
              p.products.Some? && p.products.value.ProductList? && catalog != [] &&
              (forall k :: 0 <= k < |p.products.value.entries| ==>
                 p.products.value.entries[k].product <= LastProduct(catalog).value.id) &&
              phone(TextOf(p.phonenumber)) == Parsed(true) && TextOf(p.phonenumber) != ""
  {
    NoneMissing(p);
    if MissingFields(p) == [] {
      assert !IsBlank(p, 0);
    }
  }

  /** A passing payload's draft carries the given values and at least one entry. */
  lemma ScreenDraft(p: Payload, catalog: seq<Product>, phone: string -> PhoneParse)
    requires Screen(p, catalog, phone).Passed?
    ensures var d := Screen(p, catalog, phone).draft;
            p.products == Some(ProductList(d.entries)) && d.entries != [] &&
            p.firstname == Some(Text(d.firstname)) && p.lastname == Some(Text(d.lastname)) &&
            p.phonenumber == Some(Text(d.phonenumber)) && p.address == Some(Text(d.address))
  {
    NoneMissing(p);
    assert !IsBlank(p, 0) && !IsBlank(p, 1) && !IsBlank(p, 2) && !IsBlank(p, 3) && !IsBlank(p, 4);
  }

  /** A blank field is reported before anything else is checked, with every
      blank field named. */
  lemma ScreenReportsBlanks(p: Payload, catalog: seq<Product>, phone: string -> PhoneParse)
    ensures (Screen(p, catalog, phone).Refused? && Screen(p, catalog, phone).error.MissingFieldsError?) <==>
              exists k :: 0 <= k < |FieldNames| && IsBlank(p, k)
    ensures Screen(p, catalog, phone).Refused? && Screen(p, catalog, phone).error.MissingFieldsError? ==>
              Screen(p, catalog, phone).error.names == MissingFields(p)
  {
    NoneMissing(p);
    if MissingFields(p) == [] {
      assert !IsBlank(p, 0);
      var s := Screen(p, catalog, phone);
      assert s.Refused? ==> s.error.NotAList? || s.error.UnknownProduct? || s.error.InvalidPhone?;
    } else {
      assert Screen(p, catalog, phone) == Refused(MissingFieldsError(MissingFields(p)));
    }
  }

  /** Every field is given and `products` is a list: the checks reach the catalogue. */
  predicate FieldsGiven(p: Payload) {
    (forall k :: 0 <= k < |FieldNames| ==> !IsBlank(p, k)) && p.products.Some? && p.products.value.ProductList?
  }

  /** The checks reach the phone number: every id is at most the largest one. */
  predicate IdsPassed(p: Payload, catalog: seq<Product>) {
    FieldsGiven(p) && catalog != [] &&
    forall k :: 0 <= k < |p.products.value.entries| ==> p.products.value.entries[k].product <= LastProduct(catalog).value.id
  }

  /** Once every field is given, a `products` value that is not a list is refused. */
  lemma ScreenNotAList(p: Payload, catalog: seq<Product>, phone: string -> PhoneParse)
    ensures Screen(p, catalog, phone) == Refused(NotAList) <==>
              (forall k :: 0 <= k < |FieldNames| ==> !IsBlank(p, k)) && p.products.Some? && !p.products.value.ProductList?
  {
    NoneMissing(p);
    if MissingFields(p) == [] {
      assert !IsBlank(p, 0);
    }
  }

  /** A list checked against an empty catalogue raises: `Product.objects.last()` is None. */
  lemma ScreenEmptyCatalogue(p: Payload, catalog: seq<Product>, phone: string -> PhoneParse)
    ensures Screen(p, catalog, phone) == Raised(NoProducts) <==> FieldsGiven(p) && catalog == []
  {
    NoneMissing(p);
    if MissingFields(p) == [] {
      assert !IsBlank(p, 0);
    }
  }

  /** The product-id check refuses exactly a list with an id above the
      catalogue's largest, and names the first such id. */
  lemma ScreenNamesFirstAbove(p: Payload, catalog: seq<Product>, phone: string -> PhoneParse)
    ensures (Screen(p, catalog, phone).Refused? && Screen(p, catalog, phone).error.UnknownProduct?) <==>
              FieldsGiven(p) && catalog != [] &&
              FirstAbove(p.products.value.entries, LastProduct(catalog).value.id).Some?
    ensures Screen(p, catalog, phone).Refused? && Screen(p, catalog, phone).error.UnknownProduct? ==>
              FieldsGiven(p) && catalog != [] &&
              Screen(p, catalog, phone).error ==
                UnknownProduct(FirstAbove(p.products.value.entries, LastProduct(catalog).value.id).value)
  {
    NoneMissing(p);
    if MissingFields(p) == [] {
      assert !IsBlank(p, 0);
    }
  }

  /** The phone number is judged only once every product id has passed, and
      a number `phonenumbers` cannot parse raises. */
  lemma ScreenPhoneLast(p: Payload, catalog: seq<Product>, phone: string -> PhoneParse)
    ensures Screen(p, catalog, phone) == Raised(PhoneUnparseable) <==>
              IdsPassed(p, catalog) && phone(TextOf(p.phonenumber)).Unparseable?
  {
    ScreenAtPhone(p, catalog, phone);
  }

  /** After the id check, an empty or invalid number is refused with the number quoted. */
  lemma ScreenPhoneInvalid(p: Payload, catalog: seq<Product>, phone: string -> PhoneParse)
    ensures (Screen(p, catalog, phone).Refused? && Screen(p, catalog, phone).error.InvalidPhone?) <==>
              IdsPassed(p, catalog) && phone(TextOf(p.phonenumber)).Parsed? &&
              (TextOf(p.phonenumber) == "" || !phone(TextOf(p.phonenumber)).valid)
    ensures Screen(p, catalog, phone).Refused? && Screen(p, catalog, phone).error.InvalidPhone? ==>
              Screen(p, catalog, phone).error == InvalidPhone(TextOf(p.phonenumber))
  {
    ScreenAtPhone(p, catalog, phone);
  }

  /** Where the checks stand with respect to the phone number: before the id
      check passes, the screening is over; after it, only the phone decides. */
  lemma ScreenAtPhone(p: Payload, catalog: seq<Product>, phone: string -> PhoneParse)
    ensures !IdsPassed(p, catalog) ==>
              Screen(p, catalog, phone) != Raised(PhoneUnparseable) &&
              !(Screen(p, catalog, phone).Refused? && Screen(p, catalog, phone).error.InvalidPhone?)
    ensures IdsPassed(p, catalog) ==>
              Screen(p, catalog, phone) ==
                match phone(TextOf(p.phonenumber))
                case Unparseable => Raised(PhoneUnparseable)
                case Parsed(valid) =>
                  if TextOf(p.phonenumber) == "" || !valid then Refused(InvalidPhone(TextOf(p.phonenumber)))
                  else Passed(Draft(p.products.value.entries, TextOf(p.firstname), TextOf(p.lastname),
                                    TextOf(p.phonenumber), TextOf(p.address)))
  {
    NoneMissing(p);
    if MissingFields(p) == [] {
      assert !IsBlank(p, 0);
      if p.products.value.ProductList? && catalog != [] {
        var entries := p.products.value.entries;
        var above := FirstAbove(entries, LastProduct(catalog).value.id);
        assert above.None? <==> IdsPassed(p, catalog);
      }
    }
  }

  /** A product id below the largest one passes the check even when no product
      has it: with products 1 and 3, product 2 is let through. */
  lemma ScreenAdmitsAbsentId()
    ensures var catalog := [Product(1, "a", None, 100, false, ""), Product(3, "b", None, 200, false, "")];
            var p := Payload(Some(ProductList([Entry(2, 1)])), Some(Text("f")), Some(Text("l")),
                             Some(Text("+79000000000")), Some(Text("x")));
            Screen(p, catalog, (s: string) => Parsed(true)).Passed? && ProductById(catalog, 2).None?
  {
    var catalog := [Product(1, "a", None, 100, false, ""), Product(3, "b", None, 200, false, "")];
    var p := Payload(Some(ProductList([Entry(2, 1)])), Some(Text("f")), Some(Text("l")),
                     Some(Text("+79000000000")), Some(Text("x")));
    ScreenPassed(p, catalog, (s: string) => Parsed(true));
    assert LastProduct(catalog).value.id == 3;
  }

  /** The checks as the view runs them: loops over the field names and over
      the product entries. */
  method ScreenPayload(p: Payload, catalog: seq<Product>, phone: string -> PhoneParse) returns (s: Screening)
    ensures s == Screen(p, catalog, phone)
  {
    var incorrect: seq<string> := [];
    for k := 0 to |FieldNames|
      invariant incorrect == MissingAmong(p, k)
    {
      if IsBlank(p, k) {
        incorrect := incorrect + [FieldNames[k]];
      }
    }
    if incorrect != [] {
      return Refused(MissingFieldsError(incorrect));
    }
    NoneMissing(p);
    assert !IsBlank(p, 0);
    var products := p.products.value;
    // `products != []` holds here: an empty list was reported as blank.
    if !products.ProductList? {
      return Refused(NotAList);
    }
    var entries := products.entries;
    for k := 0 to |entries|
      invariant catalog != [] ==> forall q :: 0 <= q < k ==> entries[q].product <= LastProduct(catalog).value.id
      invariant k > 0 ==> catalog != []
    {
      var last := LastProduct(catalog);
      if last.None? {
        return Raised(NoProducts);
      }
      if !(entries[k].product <= last.value.id) {
        return Refused(UnknownProduct(entries[k].product));
      }
    }
    var number := TextOf(p.phonenumber);
    var parsed := phone(number);
    if parsed.Unparseable? {
      return Raised(PhoneUnparseable);
    }
    if number == "" || !parsed.valid {
      return Refused(InvalidPhone(number));
    }
    return Passed(Draft(entries, TextOf(p.firstname), TextOf(p.lastname), number, TextOf(p.address)));
  }

  /** The first entry whose product does not exist. */
  function FirstMissing(entries: seq<Entry>, catalog: seq<Product>): Option<int> {
    if entries == [] then None
    else
      var init := entries[..|entries| - 1];
      var last := entries[|entries| - 1];
      if FirstMissing(init, catalog).Some? then FirstMissing(init, catalog)
      else if ProductById(catalog, last.product).None? then Some(last.product)
      else None
  }

  /** The item rows stored for `entries` under order `order`, each priced from its
      product, up to the first entry whose product does not exist. */
  function PricedItems(order: nat, entries: seq<Entry>, catalog: seq<Product>): seq<OrderItem> {
    if entries == [] then []
    else
      var init := entries[..|entries| - 1];
      var last := entries[|entries| - 1];
      if FirstMissing(init, catalog).Some? then PricedItems(order, init, catalog)
      else match ProductById(catalog, last.product)
        case None => PricedItems(order, init, catalog)
        case Some(prod) => PricedItems(order, init, catalog) + [OrderItem(order, prod.id, last.quantity, prod.price)]
  }

  /** Sum over the entries of the product's price times the quantity. */
  function EntriesValue(entries: seq<Entry>, catalog: seq<Product>): int {
    if entries == [] then 0
    else
      var last := entries[|entries| - 1];
      EntriesValue(entries[..|entries| - 1], catalog) +
        match ProductById(catalog, last.product)
        case None => 0
        case Some(prod) => prod.price * last.quantity
  }

  /** Once a missing product is met, nothing after it is stored. */
  lemma {:induction false} StopsAtFirstMissing(order: nat, entries: seq<Entry>, catalog: seq<Product>, k: nat, j: nat)
    requires k <= j <= |entries|
    requires FirstMissing(entries[..k], catalog).Some?
    ensures FirstMissing(entries[..j], catalog) == FirstMissing(entries[..k], catalog)
    ensures PricedItems(order, entries[..j], catalog) == PricedItems(order, entries[..k], catalog)
    decreases j - k
  {
    if k < j {
      StopsAtFirstMissing(order, entries, catalog, k, j - 1);
      assert entries[..j][..j - 1] == entries[..j - 1];
    }
  }

  /** `it` is the row `register_order` stores for entry `e` of order `order`:
      the entry's product and quantity, at the product's price. */
  predicate RowOfEntry(it: OrderItem, order: nat, e: Entry, catalog: seq<Product>) {
    it.order == order && it.product == e.product && it.quantity == e.quantity &&
    ProductById(catalog, e.product).Some? && it.price == ProductById(catalog, e.product).value.price
  }

  /** With every product present, the rows are one per entry, in entry order. */
  lemma {:induction false} PricedItemsMatch(order: nat, entries: seq<Entry>, catalog: seq<Product>)
    requires FirstMissing(entries, catalog).None?
    ensures |PricedItems(order, entries, catalog)| == |entries|
    ensures forall k :: 0 <= k < |entries| ==> RowOfEntry(PricedItems(order, entries, catalog)[k], order, entries[k], catalog)
  {
    if entries != [] {
      var init := entries[..|entries| - 1];
      var last := entries[|entries| - 1];
      PricedItemsMatch(order, init, catalog);
      var prod := ProductById(catalog, last.product).value;
      var rows := PricedItems(order, init, catalog);
      var row := OrderItem(order, prod.id, last.quantity, prod.price);
      assert PricedItems(order, entries, catalog) == rows + [row];
      assert RowOfEntry(row, order, last, catalog);
      forall k | 0 <= k < |init|
        ensures RowOfEntry(PricedItems(order, entries, catalog)[k], order, entries[k], catalog)
      {
        assert entries[k] == init[k] && (rows + [row])[k] == rows[k];
      }
    }
  }

  /** With every product present, the rows all belong to the order and their
      total is the entries' value. */
  lemma {:induction false} PricedItemsFacts(order: nat, entries: seq<Entry>, catalog: seq<Product>)
    requires FirstMissing(entries, catalog).None?
    ensures forall it :: it in PricedItems(order, entries, catalog) ==> it.order == order
    ensures Total(PricedItems(order, entries, catalog)) == EntriesValue(entries, catalog)
  {
    if entries != [] {
      var init := entries[..|entries| - 1];
      var last := entries[|entries| - 1];
      PricedItemsFacts(order, init, catalog);
      var prod := ProductById(catalog, last.product).value;
      var row := OrderItem(order, prod.id, last.quantity, prod.price);
      TotalAppend(PricedItems(order, init, catalog), [row]);
    }
  }

  /** The amount `with_amount` reports for an order registered with every
      product present: the sum of price times quantity over the request. */
  lemma NewOrderAmount(before: seq<OrderItem>, order: nat, entries: seq<Entry>, catalog: seq<Product>)
    requires forall it :: it in before ==> it.order != order
    requires entries != [] && FirstMissing(entries, catalog).None?
    ensures Amount(before + PricedItems(order, entries, catalog), order) == Some(EntriesValue(entries, catalog))
  {
    PricedItemsFacts(order, entries, catalog);
    AmountOfAppended(before, PricedItems(order, entries, catalog), order);
  }

  /** `register_order`, with each item's price taken from its product. */
  method RegisterOrder(table: OrderTable, p: Payload, catalog: seq<Product>, phone: string -> PhoneParse, now: int)
    returns (response: Response)
    requires table.Valid()
    modifies table
    ensures table.Valid()
    ensures Screen(p, catalog, phone).Refused? ==>
              response == BadRequest(Screen(p, catalog, phone).error) && unchanged(table)
    ensures Screen(p, catalog, phone).Raised? ==>
              response == ServerError(Screen(p, catalog, phone).fault) && unchanged(table)
    ensures Screen(p, catalog, phone).Passed? ==>
              var d := Screen(p, catalog, phone).draft;
              var id := old(table.nextOrderId);
              table.orders == old(table.orders) + [NewOrder(id, d.firstname, d.lastname, d.phonenumber, d.address, now)] &&
              table.items == old(table.items) + PricedItems(id, d.entries, catalog) &&
              table.nextOrderId == id + 1 &&
              response == (if FirstMissing(d.entries, catalog).None? then Ok
                           else ServerError(ProductDoesNotExist(FirstMissing(d.entries, catalog).value)))
  {
    var s := ScreenPayload(p, catalog, phone);
    if s.Refused? {
      return BadRequest(s.error);
    }
    if s.Raised? {
      return ServerError(s.fault);
    }
    var d := s.draft;
    var order := table.CreateOrder(d.firstname, d.lastname, d.phonenumber, d.address, now);
    var missing := StoreItems(table, order, d.entries, catalog);
    if missing.Some? {
      return ServerError(ProductDoesNotExist(missing.value));
    }
    return Ok;
  }

  /** The item loop of `register_order` for a just-created `order`: one row per
      entry, priced from its product, until `Product.objects.get` raises. */
  method StoreItems(table: OrderTable, order: Order, entries: seq<Entry>, catalog: seq<Product>)
    returns (missing: Option<int>)
    requires table.Valid() && order in table.orders
    modifies table
    ensures table.Valid()
    ensures missing == FirstMissing(entries, catalog)
    ensures table.items == old(table.items) + PricedItems(order.id, entries, catalog)
    ensures table.orders == old(table.orders) && table.nextOrderId == old(table.nextOrderId)
  {
    for k := 0 to |entries|
      invariant table.Valid()
      invariant table.orders == old(table.orders) && table.nextOrderId == old(table.nextOrderId)
      invariant FirstMissing(entries[..k], catalog).None?
      invariant table.items == old(table.items) + PricedItems(order.id, entries[..k], catalog)
    {
      var entry := entries[k];
      var product := ProductById(catalog, entry.product);
      if product.None? {
        MissingStep(order.id, entries, catalog, k);
        return Some(entry.product);
      }
      PricedStep(order.id, entries, catalog, k);
      var stored := table.CreateItem(order.id, product.value.id, entry.quantity, Some(product.value.price));
    }
    assert entries[..|entries|] == entries;
    return None;
  }

  /** Entry `k` whose product exists adds its priced row. */
  lemma PricedStep(order: nat, entries: seq<Entry>, catalog: seq<Product>, k: nat)
    requires k < |entries| && FirstMissing(entries[..k], catalog).None?
    requires ProductById(catalog, entries[k].product).Some?
    ensures FirstMissing(entries[..k + 1], catalog).None?
    ensures var prod := ProductById(catalog, entries[k].product).value;
            PricedItems(order, entries[..k + 1], catalog) ==
              PricedItems(order, entries[..k], catalog) + [OrderItem(order, prod.id, entries[k].quantity, prod.price)]
  {
    assert entries[..k + 1][..k] == entries[..k];
  }

  /** Entry `k` whose product is missing is the first missing one and ends the rows. */
  lemma MissingStep(order: nat, entries: seq<Entry>, catalog: seq<Product>, k: nat)
    requires k < |entries| && FirstMissing(entries[..k], catalog).None?
    requires ProductById(catalog, entries[k].product).None?
    ensures FirstMissing(entries, catalog) == Some(entries[k].product)
    ensures PricedItems(order, entries, catalog) == PricedItems(order, entries[..k], catalog)
  {
    assert entries[..k + 1][..k] == entries[..k];
    assert FirstMissing(entries[..k + 1], catalog) == Some(entries[k].product);
    StopsAtFirstMissing(order, entries, catalog, k + 1, |entries|);
    assert entries[..|entries|] == entries;
  }

  /** `register_order` as written: `OrderItem.objects.create` is given no price,
      so the NOT NULL column rejects the first item after the order row is stored. */
  method RegisterOrderAsWritten(table: OrderTable, p: Payload, catalog: seq<Product>, phone: string -> PhoneParse,
                                now: int)
    returns (response: Response)
    requires table.Valid()
    modifies table
    ensures table.Valid()
    ensures !response.Ok?
    ensures Screen(p, catalog, phone).Refused? ==>
              response == BadRequest(Screen(p, catalog, phone).error) && unchanged(table)
    ensures Screen(p, catalog, phone).Raised? ==>
              response == ServerError(Screen(p, catalog, phone).fault) && unchanged(table)
    ensures Screen(p, catalog, phone).Passed? ==>
              var d := Screen(p, catalog, phone).draft;
              var id := old(table.nextOrderId);
              table.orders == old(table.orders) + [NewOrder(id, d.firstname, d.lastname, d.phonenumber, d.address, now)] &&
              table.items == old(table.items) && table.nextOrderId == id + 1 &&
              |d.entries| > 0 &&
              response == ServerError(if ProductById(catalog, d.entries[0].product).None?
                                      then ProductDoesNotExist(d.entries[0].product) else PriceNotNull)
  {
    var s := ScreenPayload(p, catalog, phone);
    if s.Refused? {
      return BadRequest(s.error);
    }
    if s.Raised? {
      return ServerError(s.fault);
    }
    var d := s.draft;
    ScreenDraft(p, catalog, phone);
    var order := table.CreateOrder(d.firstname, d.lastname, d.phonenumber, d.address, now);
    for k := 0 to |d.entries|
      invariant table.Valid()
      invariant table.orders == old(table.orders) + [order] && table.nextOrderId == order.id + 1
      invariant order.id == old(table.nextOrderId)
      invariant k == 0 && table.items == old(table.items)
    {
      var entry := d.entries[k];
      var product := ProductById(catalog, entry.product);
      if product.None? {
        return ServerError(ProductDoesNotExist(entry.product));
      }
      var stored := table.CreateItem(order.id, product.value.id, entry.quantity, None);
      if !stored {
        return ServerError(PriceNotNull);
      }
    }
    assert false;
  }
}
