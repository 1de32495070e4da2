/**
 The gift-order manifest handler: a Cargo manifest arrives as a request
 body; its `package.metadata.orders` list is filtered down to the entries
 that are well-formed orders, and the handler answers with a status code and
 a body. Parsing TOML and the Cargo schema is done by libraries outside this
 model: the handler receives either a parse failure or the parsed manifest,
 in which each raw order is kept as the TOML value it was written as.
 */
module ManifestOrders {
  import opened Outcomes
  import Text

  const ContentTypeToml: string := "application/toml"
  const InvalidManifest: string := "Invalid manifest"
  const MagicWord: string := "Christmas 2024"
  const MagicWordNotFound: string := "Magic keyword not provided"

  const StatusOk: nat := 200
  const StatusNoContent: nat := 204
  const StatusBadRequest: nat := 400

  type U32 = x: int | 0 <= x < 0x1_0000_0000

  /**
   A TOML value. A float carries no payload: it never becomes a string or an
   unsigned integer. A date-time keeps its text, which is what a `String`
   field receives from it.
   */
  datatype TomlValue =
    | TString(s: string)
    | TInteger(i: int)
    | TFloat
    | TBoolean(b: bool)
    | TDatetime(text: string)
    | TArray(elems: seq<TomlValue>)
    | TTable(fields: map<string, TomlValue>)

  datatype Order = Order(item: string, quantity: U32)

  /** A Cargo `keywords` field: a local list, or `workspace = true`. */
  datatype Keywords = Local(words: seq<string>) | Inherited

  /** `package.metadata`, with its `orders` list before filtering. */
  datatype Metadata = Metadata(orders: Option<seq<TomlValue>>)

  datatype Package = Package(keywords: Option<Keywords>, metadata: Option<Metadata>)

  datatype Manifest = Manifest(package: Option<Package>)

  datatype Response = Response(status: nat, body: string)

  /** A `String` field: a TOML string, or a date-time handed over as its text. */
  function DecodeString(v: TomlValue): Option<string>
  {
    match v
    case TString(s) => Some(s)
    case TDatetime(text) => Some(text)
    case _ => None
  }

  /** A `u32` field: a TOML integer in range. */
  function DecodeU32(v: TomlValue): Option<U32>
  {
    if v.TInteger? && 0 <= v.i < 0x1_0000_0000 then Some(v.i as U32) else None
  }

  /**
   `Order::deserialize` on one raw value: a table holding a string `item`
   and an in-range integer `quantity` (other keys ignored), or the
   positional form, an array of exactly those two values.
   */
  function DecodeOrder(v: TomlValue): (r: Option<Order>)
    ensures v.TTable? ==>
      (r.Some? <==>
        && "item" in v.fields && DecodeString(v.fields["item"]).Some?
        && "quantity" in v.fields && DecodeU32(v.fields["quantity"]).Some?)
    ensures v.TArray? ==>
      (r.Some? <==>
        |v.elems| == 2 && DecodeString(v.elems[0]).Some? && DecodeU32(v.elems[1]).Some?)
    ensures r.Some? && v.TTable? ==>
      && DecodeString(v.fields["item"]) == Some(r.value.item)
      && v.fields["quantity"] == TInteger(r.value.quantity)
    ensures r.Some? && v.TArray? ==>
      && DecodeString(v.elems[0]) == Some(r.value.item)
      && v.elems[1] == TInteger(r.value.quantity)
    ensures r.Some? ==> v.TTable? || v.TArray?
  {
    match v
    case TTable(fields) =>
      if "item" in fields && "quantity" in fields
         && DecodeString(fields["item"]).Some? && DecodeU32(fields["quantity"]).Some?
      then Some(Order(DecodeString(fields["item"]).value, DecodeU32(fields["quantity"]).value))
      else None
    case TArray(elems) =>
      if |elems| == 2 && DecodeString(elems[0]).Some? && DecodeU32(elems[1]).Some?
      then Some(Order(DecodeString(elems[0]).value, DecodeU32(elems[1]).value))
      else None
    case _ => None
  }

  /**
   `deserialize_orders`: the raw values that decode as orders, decoded, in
   their original order; a value that does not decode is skipped, never an
   error.
   */
  function DeserializeOrders(raw: seq<TomlValue>): (orders: seq<Order>)
    ensures |orders| <= |raw|
  {
    if |raw| == 0 then []
    else
      Kept(raw[0]) + DeserializeOrders(raw[1..])
  }

  /** What the filter keeps of one raw value: its decoding, or nothing. */
  function Kept(v: TomlValue): (kept: seq<Order>)
    ensures |kept| <= 1
  {
    match DecodeOrder(v)
    case Some(o) => [o]
    case None => []
  }

  /** An order is kept exactly when some raw entry decodes to it. */
  lemma {:induction false} DeserializeOrdersMembers(raw: seq<TomlValue>, o: Order)
    ensures o in DeserializeOrders(raw) <==> exists v :: v in raw && DecodeOrder(v) == Some(o)
    decreases |raw|
  {
    if |raw| > 0 {
      DeserializeOrdersMembers(raw[1..], o);
      assert forall v :: v in raw <==> v == raw[0] || v in raw[1..];
    }
  }

  /** The filter works entry by entry, so it distributes over concatenation. */
  lemma {:induction false} DeserializeOrdersAppend(a: seq<TomlValue>, b: seq<TomlValue>)
    ensures DeserializeOrders(a + b) == DeserializeOrders(a) + DeserializeOrders(b)
    decreases |a|
  {
    if |a| == 0 {
      assert a + b == b;
    } else {
      DeserializeOrdersAppend(a[1..], b);
      assert (a + b)[0] == a[0];
      assert (a + b)[1..] == a[1..] + b;
      assert DeserializeOrders(a + b) == Kept(a[0]) + DeserializeOrders(a[1..] + b);
      assert DeserializeOrders(a) == Kept(a[0]) + DeserializeOrders(a[1..]);
    }
  }

  /** One entry is kept exactly when it decodes. */
  lemma DeserializeOneOrder(v: TomlValue)
    ensures DeserializeOrders([v]) == if DecodeOrder(v).Some? then [DecodeOrder(v).value] else []
  {
    assert [v][1..] == [];
    assert DeserializeOrders([v]) == Kept(v) + DeserializeOrders([]);
  }

  /** When every entry is well-formed, nothing is dropped and positions are kept. */
  lemma {:induction false} DeserializeAllValid(raw: seq<TomlValue>)
    requires forall i :: 0 <= i < |raw| ==> DecodeOrder(raw[i]).Some?
    ensures |DeserializeOrders(raw)| == |raw|
    ensures forall i :: 0 <= i < |raw| ==> DeserializeOrders(raw)[i] == DecodeOrder(raw[i]).value
    decreases |raw|
  {
    if |raw| > 0 {
      DeserializeAllValid(raw[1..]);
    }
  }

  /** The two orders of the manifest test: the second has a string quantity and is dropped. */
  lemma ToyCarExample()
    ensures DeserializeOrders([
      TTable(map["item" := TString("Toy car"), "quantity" := TInteger(2)]),
      TTable(map["item" := TString("Lego brick"), "quantity" := TString("hello, world")])
    ]) == [Order("Toy car", 2)]
  {
    var car := TTable(map["item" := TString("Toy car"), "quantity" := TInteger(2)]);
    var lego := TTable(map["item" := TString("Lego brick"), "quantity" := TString("hello, world")]);
    DeserializeOrdersAppend([car], [lego]);
    DeserializeOneOrder(car);
    DeserializeOneOrder(lego);
    assert [car] + [lego] == [car, lego];
  }

  /** `format!("{}: {}", item, quantity)`: the item, a colon and a space, then the quantity in decimal. */
  function FormatOrder(o: Order): (line: string)
    ensures |line| > |o.item| + 2
    ensures line[..|o.item|] == o.item
    ensures line[|o.item|..|o.item| + 2] == ": "
    ensures forall i :: |o.item| + 2 <= i < |line| ==> Text.IsDigit(line[i])
    ensures line[|o.item| + 2] == '0' ==> o.quantity == 0 && |line| == |o.item| + 3
    ensures Text.ParseDecimal(line[|o.item| + 2..]) == o.quantity
  {
    var digits := Text.DecimalString(o.quantity);
    Text.DecimalRoundTrip(o.quantity);
    var line := o.item + ": " + digits;
    assert line[|o.item| + 2..] == digits;
    line
  }

  function OrderLines(orders: seq<Order>): (lines: seq<string>)
    ensures |lines| == |orders|
    ensures forall i :: 0 <= i < |orders| ==> lines[i] == FormatOrder(orders[i])
  {
    seq(|orders|, i requires 0 <= i < |orders| => FormatOrder(orders[i]))
  }

  /** A `Content-Type` header is present and is not exactly `application/toml`. */
  predicate WrongContentType(contentType: Option<string>)
  {
    contentType.Some? && contentType.value != ContentTypeToml
  }

  /** The package's own keyword list (not an inherited one) contains the magic word. */
  predicate HasMagicWord(keywords: Option<Keywords>)
  {
    keywords.Some? && keywords.value.Local? && MagicWord in keywords.value.words
  }

  /** The well-formed orders of a package; none when metadata or its `orders` is absent. */
  function PackageOrders(p: Package): seq<Order>
  {
    if p.metadata.Some? && p.metadata.value.orders.Some?
    then DeserializeOrders(p.metadata.value.orders.value)
    else []
  }

  /**
   The `manifest` handler. `contentType` is the request's `Content-Type`
   header, if any; `parsed` is the manifest read from the body, or None when
   the body is not a valid manifest. The checks run in this order: content
   type, parse, magic keyword, orders.
   */
  function HandleManifest(contentType: Option<string>, parsed: Option<Manifest>): (r: Response)
    ensures r.status == StatusOk || r.status == StatusNoContent || r.status == StatusBadRequest
    ensures r == Response(StatusBadRequest, "") <==> WrongContentType(contentType)
    ensures r == Response(StatusBadRequest, InvalidManifest) <==>
      !WrongContentType(contentType) && parsed.None?
    ensures r == Response(StatusBadRequest, MagicWordNotFound) <==>
      && !WrongContentType(contentType)
      && parsed.Some? && parsed.value.package.Some?
      && !HasMagicWord(parsed.value.package.value.keywords)
    ensures r.status == StatusOk <==>
      && !WrongContentType(contentType)
      && parsed.Some? && parsed.value.package.Some?
      && HasMagicWord(parsed.value.package.value.keywords)
      && |PackageOrders(parsed.value.package.value)| > 0
    ensures r.status == StatusOk ==>
      r.body == Text.Join(OrderLines(PackageOrders(parsed.value.package.value)), '\n')
    ensures r.status == StatusNoContent <==>
      && !WrongContentType(contentType)
      && parsed.Some?
      && (parsed.value.package.None? ||
          (HasMagicWord(parsed.value.package.value.keywords)
           && |PackageOrders(parsed.value.package.value)| == 0))
    ensures r.status == StatusNoContent ==> r.body == ""
  {
    if WrongContentType(contentType) then Response(StatusBadRequest, "")
    else if parsed.None? then Response(StatusBadRequest, InvalidManifest)
    else match parsed.value.package
      case None => Response(StatusNoContent, "")
      case Some(package) =>
        if !HasMagicWord(package.keywords) then Response(StatusBadRequest, MagicWordNotFound)
        else
          var lines := OrderLines(PackageOrders(package));
          if |lines| > 0 then Response(StatusOk, Text.Join(lines, '\n'))
          else Response(StatusNoContent, "")
  }

  /**
   A 200 body has one line per well-formed order, in order: splitting it on
   line breaks gives back the formatted orders, provided no item name itself
   contains a line break.
   */
  lemma ManifestBodyLines(contentType: Option<string>, m: Manifest)
    requires HandleManifest(contentType, Some(m)).status == StatusOk
    requires forall o :: o in PackageOrders(m.package.value) ==> '\n' !in o.item
    ensures Text.Split(HandleManifest(contentType, Some(m)).body, '\n') == OrderLines(PackageOrders(m.package.value))
  {
    var orders := PackageOrders(m.package.value);
    var lines := OrderLines(orders);
    forall i | 0 <= i < |lines|
      ensures '\n' !in lines[i]
    {
      OrderLineUnbroken(orders[i]);
    }
    Text.SplitJoin(lines, '\n');
  }

  /** An order line holds a line break only if its item does. */
  lemma OrderLineUnbroken(o: Order)
    requires '\n' !in o.item
    ensures '\n' !in FormatOrder(o)
  {
    var line := FormatOrder(o);
    forall k | 0 <= k < |line|
      ensures line[k] != '\n'
    {
      if k < |o.item| {
        assert line[k] == line[..|o.item|][k];
      } else if k < |o.item| + 2 {
        assert line[k] == line[|o.item|..|o.item| + 2][k - |o.item|];
      }
    }
  }
}
