/** The manifest order list of src/day5.rs, over an abstract manifest.

    The TOML / YAML / JSON decoders are not modelled: the handler receives an
    already decoded manifest, described here by `Manifest`, whose package
    metadata is a generic TOML-like `Value`. */
module ManifestOrders {
  import opened Wrappers

  datatype Value =
    | Integer(n: int)
    | Str(s: string)
    | Array(items: seq<Value>)
    | Table(entries: map<string, Value>)
    | Other   // floats, booleans, dates: never read here

  /** The package's `keywords`: a local list, or inherited from a workspace. */
  datatype Keywords = Local(words: seq<string>) | Inherited

  datatype Package = Package(keywords: Option<Keywords>, metadata: Option<Value>)

  datatype Manifest = Manifest(package: Option<Package>)

  datatype Error =
    | UnsupportedMedia
    | NoContent
    | NoKeyword

  const MagicKeyword: string := "Christmas 2024"

  /** `Value::get`: a key of a table; any other value has no keys. */
  function Get(v: Value, key: string): (r: Option<Value>)
    ensures r.Some? <==> v.Table? && key in v.entries
    ensures r.Some? ==> r.value == v.entries[key]
  {
    if v.Table? && key in v.entries then Some(v.entries[key]) else None
  }

  // ---------------------------------------------------------------------------
  // Orders

  /** An order, decoded: the item and the quantity it asks for. */
  datatype Order = Order(item: string, quantity: int)

  /** An order is kept when it has an `item` and an integer `quantity`. */
  predicate Kept(o: Value) {
    && Get(o, "item").Some?
    && Get(o, "quantity").Some?
    && Get(o, "quantity").value.Integer?
  }

  /** The handler unwraps each order as a table and the item of a kept order
      as a string. */
  predicate ReadableOrder(o: Value) {
    o.Table? && (Kept(o) ==> Get(o, "item").value.Str?)
  }

  predicate ReadableOrders(v: Value) {
    v.Array? && forall k :: 0 <= k < |v.items| ==> ReadableOrder(v.items[k])
  }

  function Decode(o: Value): Order
    requires ReadableOrder(o) && Kept(o)
  {
    Order(Get(o, "item").value.s, Get(o, "quantity").value.n)
  }

  /** The kept orders of a list, in list order. */
  function KeptOrders(orders: seq<Value>): (r: seq<Order>)
    requires forall k :: 0 <= k < |orders| ==> ReadableOrder(orders[k])
    ensures |r| <= |orders|
  {
    if orders == [] then []
    else
      var o := orders[|orders| - 1];
      assert ReadableOrder(o);
      KeptOrders(orders[..|orders| - 1]) + if Kept(o) then [Decode(o)] else []
  }

  /** Keeping orders respects concatenation: every kept order is reported in
      the position its list puts it. */
  lemma {:induction false} KeptOrdersAppend(xs: seq<Value>, ys: seq<Value>)
    requires forall k :: 0 <= k < |xs| ==> ReadableOrder(xs[k])
    requires forall k :: 0 <= k < |ys| ==> ReadableOrder(ys[k])
    ensures forall k :: 0 <= k < |xs + ys| ==> ReadableOrder((xs + ys)[k])
    ensures KeptOrders(xs + ys) == KeptOrders(xs) + KeptOrders(ys)
    decreases |ys|
  {
    assert forall k :: 0 <= k < |xs + ys| ==> ReadableOrder((xs + ys)[k]) by {
      forall k | 0 <= k < |xs + ys| ensures ReadableOrder((xs + ys)[k]) {
        if k < |xs| { assert (xs + ys)[k] == xs[k]; } else { assert (xs + ys)[k] == ys[k - |xs|]; }
      }
    }
    if ys == [] {
      assert xs + ys == xs;
    } else {
      var ys' := ys[..|ys| - 1];
      assert (xs + ys)[..|xs + ys| - 1] == xs + ys';
      assert forall k :: 0 <= k < |ys'| ==> ys'[k] == ys[k];
      KeptOrdersAppend(xs, ys');
    }
  }

  /** An order that is skipped changes nothing, wherever it stands. */
  lemma SkippedOrderIsInvisible(xs: seq<Value>, o: Value, ys: seq<Value>)
    requires forall k :: 0 <= k < |xs| ==> ReadableOrder(xs[k])
    requires forall k :: 0 <= k < |ys| ==> ReadableOrder(ys[k])
    requires o.Table? && !Kept(o)
    ensures forall k :: 0 <= k < |xs + [o] + ys| ==> ReadableOrder((xs + [o] + ys)[k])
    ensures KeptOrders(xs + [o] + ys) == KeptOrders(xs + ys)
  {
    KeptOrdersAppend(xs, [o]);
    assert KeptOrders([o]) == [] by { assert [o][..0] == []; }
    KeptOrdersAppend(xs + [o], ys);
    KeptOrdersAppend(xs, ys);
  }

  // ---------------------------------------------------------------------------
  // Text

  function DigitChar(d: nat): char
    requires d < 10
  {
    "0123456789"[d]
  }

  predicate IsDigit(c: char) {
    '0' <= c <= '9'
  }

  /** The decimal digits of a natural number, most significant first. */
  function NatDecimal(n: nat): (s: string)
    ensures |s| > 0 && forall k :: 0 <= k < |s| ==> IsDigit(s[k])
    ensures s[0] == '0' <==> n == 0
    ensures |s| == 1 || s[0] != '0'
    decreases n
  {
    if n < 10 then [DigitChar(n)] else NatDecimal(n / 10) + [DigitChar(n % 10)]
  }

  function DigitValue(c: char): nat
    requires IsDigit(c)
  {
    c as int - '0' as int
  }

  /** The value of a string of decimal digits. */
  function DecimalValue(s: string): nat
    requires forall k :: 0 <= k < |s| ==> IsDigit(s[k])
  {
    if s == [] then 0
    else 10 * DecimalValue(s[..|s| - 1]) + DigitValue(s[|s| - 1])
  }

  /** Reading back the digits gives the number. */
  lemma {:induction false} NatDecimalRoundTrip(n: nat)
    ensures DecimalValue(NatDecimal(n)) == n
    decreases n
  {
    var s := NatDecimal(n);
    if n >= 10 {
      assert s[..|s| - 1] == NatDecimal(n / 10);
      NatDecimalRoundTrip(n / 10);
    }
  }

  /** `Display` of an integer quantity: a minus sign for negatives, then the
      digits of its magnitude. */
  function Decimal(n: int): (s: string)
    ensures |s| > 0 && IsDigit(s[|s| - 1])
    ensures n < 0 ==> |s| > 1 && s[0] == '-'
    ensures var digits := if n < 0 then s[1..] else s;
      && (forall k :: 0 <= k < |digits| ==> IsDigit(digits[k]))
      && DecimalValue(digits) == (if n < 0 then -n else n)
      && (|digits| == 1 || digits[0] != '0')
  {
    var digits := if n < 0 then NatDecimal(-n) else NatDecimal(n);
    NatDecimalRoundTrip(if n < 0 then -n else n);
    if n < 0 then
      assert ("-" + digits)[1..] == digits;
      "-" + digits
    else digits
  }

  /** One line of the answer, as `writeln!` writes it. */
  function OrderLine(o: Order): string {
    o.item + ": " + Decimal(o.quantity) + "\n"
  }

  function Text(orders: seq<Order>): string {
    if orders == [] then [] else Text(orders[..|orders| - 1]) + OrderLine(orders[|orders| - 1])
  }

  /** White space as `str::trim` strips it (the Unicode White_Space property). */
  predicate IsWhiteSpace(c: char) {
    || '\t' <= c <= '\r' || c == ' ' || c == '\U{85}' || c == '\U{A0}' || c == '\U{1680}'
    || '\U{2000}' <= c <= '\U{200A}' || c == '\U{2028}' || c == '\U{2029}' || c == '\U{202F}'
    || c == '\U{205F}' || c == '\U{3000}'
  }

  function TrimStart(s: string): (r: string)
    ensures |r| <= |s| && r == s[|s| - |r|..]
    ensures r == [] || !IsWhiteSpace(r[0])
    ensures forall k :: 0 <= k < |s| - |r| ==> IsWhiteSpace(s[k])
  {
    if s != [] && IsWhiteSpace(s[0]) then TrimStart(s[1..]) else s
  }

  function TrimEnd(s: string): (r: string)
    ensures |r| <= |s| && r == s[..|r|]
    ensures r == [] || !IsWhiteSpace(r[|r| - 1])
    ensures forall k :: |r| <= k < |s| ==> IsWhiteSpace(s[k])
  {
    if s != [] && IsWhiteSpace(s[|s| - 1]) then TrimEnd(s[..|s| - 1]) else s
  }

  /** `str::trim`. */
  function Trim(s: string): string {
    TrimEnd(TrimStart(s))
  }

  lemma TextSnoc(orders: seq<Order>, o: Order)
    ensures Text(orders + [o]) == Text(orders) + OrderLine(o)
  {
    assert (orders + [o])[..|orders|] == orders;
  }

  /** When the first item does not start with white space, trimming only
      drops the final line break: the answer is every kept order's line,
      in order, joined by line breaks. */
  lemma TrimmedText(orders: seq<Order>)
    requires orders != []
    requires orders[0].item == [] || !IsWhiteSpace(orders[0].item[0])
    ensures var t := Text(orders);
      |t| > 0 && t[|t| - 1] == '\n' && Trim(t) == t[..|t| - 1]
  {
    var t := Text(orders);
    TextStart(orders);
    assert t[0] == (orders[0].item + ": ")[0];
    assert TrimStart(t) == t;
    TextEnd(orders);
  }

  /** The text ends with a line break that follows a digit. */
  lemma TextEnd(orders: seq<Order>)
    requires orders != []
    ensures var t := Text(orders);
      |t| > 1 && t[|t| - 1] == '\n' && IsDigit(t[|t| - 2]) && TrimEnd(t) == t[..|t| - 1]
  {
    var line := OrderLine(orders[|orders| - 1]);
    OrderLineEnd(orders[|orders| - 1]);
    var t := Text(orders[..|orders| - 1]) + line;
    assert t[|t| - 1] == line[|line| - 1] && t[|t| - 2] == line[|line| - 2];
    DropLineBreak(t);
  }

  lemma OrderLineEnd(o: Order)
    ensures var line := OrderLine(o);
      |line| > 1 && line[|line| - 1] == '\n' && IsDigit(line[|line| - 2])
  {
    var d := Decimal(o.quantity);
    var line := OrderLine(o);
    assert line == (o.item + ": " + d) + "\n";
    assert line[|line| - 2] == d[|d| - 1];
  }

  /** Trimming the end of a text that ends in a line break after a visible
      character drops only the line break. */
  lemma DropLineBreak(t: string)
    requires |t| > 1 && t[|t| - 1] == '\n' && IsDigit(t[|t| - 2])
    ensures TrimEnd(t) == t[..|t| - 1]
  {
    var u := t[..|t| - 1];
    assert TrimEnd(t) == TrimEnd(u);
    assert u[|u| - 1] == t[|t| - 2];
  }

  lemma OrderLineStart(o: Order)
    ensures var p := o.item + ": ";
      |OrderLine(o)| > |p| && OrderLine(o)[..|p|] == p
  {
    var p := o.item + ": ";
    assert OrderLine(o) == p + (Decimal(o.quantity) + "\n");
  }

  /** The text begins with the first order's item followed by ": ". */
  lemma {:induction false} TextStart(orders: seq<Order>)
    requires orders != []
    ensures var p := orders[0].item + ": ";
      |Text(orders)| > |p| && Text(orders)[..|p|] == p
  {
    var front := orders[..|orders| - 1];
    var line := OrderLine(orders[|orders| - 1]);
    assert Text(orders) == Text(front) + line;
    if |orders| == 1 {
      assert Text(front) == [];
      OrderLineStart(orders[0]);
    } else {
      TextStart(front);
      assert front[0] == orders[0];
      PrefixOfConcat(Text(front), line, |orders[0].item + ": "|);
    }
  }

  lemma PrefixOfConcat(a: string, b: string, n: nat)
    requires n <= |a|
    ensures (a + b)[..n] == a[..n]
  {
  }

  // ---------------------------------------------------------------------------
  // The handler

  /** The keyword test passes: the package lists the magic keyword. */
  predicate HasMagicKeyword(p: Package)
    requires p.keywords != Some(Inherited)
  {
    p.keywords.Some? && MagicKeyword in p.keywords.value.words
  }

  /** The `orders` entry of the package metadata, when there is one. */
  function OrdersEntry(p: Package): Option<Value> {
    if p.metadata.Some? then Get(p.metadata.value, "orders") else None
  }

  /** What the handler needs so that none of its `unwrap`s fails: keywords
      given locally, and, when the orders are reached, a list of tables whose
      kept items are strings. */
  predicate Unwrappable(m: Manifest) {
    m.package.Some? ==>
      var p := m.package.value;
      && p.keywords != Some(Inherited)
      && (HasMagicKeyword(p) && OrdersEntry(p).Some? ==> ReadableOrders(OrdersEntry(p).value))
  }

  /** `task1`: the order list of a manifest, or the reason there is none. */
  method Orders(m: Manifest) returns (r: Result<string, Error>)
    requires Unwrappable(m)
    ensures m.package.None? ==> r == Err(NoContent)
    ensures m.package.Some? && !HasMagicKeyword(m.package.value) ==> r == Err(NoKeyword)
    ensures m.package.Some? && HasMagicKeyword(m.package.value) && OrdersEntry(m.package.value).None? ==>
      r == Err(NoContent)
    ensures m.package.Some? && HasMagicKeyword(m.package.value) && OrdersEntry(m.package.value).Some? ==>
      var kept := KeptOrders(OrdersEntry(m.package.value).value.items);
      r == if kept == [] then Err(NoContent) else Ok(Trim(Text(kept)))
  {
    if m.package.None? {
      return Err(NoContent);
    }
    var package := m.package.value;
    if package.keywords.None? {
      return Err(NoKeyword);
    }
    var keywords := package.keywords.value.words;
    if MagicKeyword !in keywords {
      return Err(NoKeyword);
    }
    if package.metadata.None? {
      return Err(NoContent);
    }
    var entry := Get(package.metadata.value, "orders");
    if entry.None? {
      return Err(NoContent);
    }
    var orders := entry.value.items;
    var output := WriteOrders(orders);
    if output == "" {
      EmptyText(KeptOrders(orders));
      return Err(NoContent);
    }
    return Ok(Trim(output));
  }

  /** The loop of `task1`: one line per kept order, skipping the others. */
  method WriteOrders(orders: seq<Value>) returns (output: string)
    requires forall k :: 0 <= k < |orders| ==> ReadableOrder(orders[k])
    ensures output == Text(KeptOrders(orders))
  {
    output := "";
    var i := 0;
    while i < |orders|
      invariant 0 <= i <= |orders|
      invariant output == Text(KeptOrders(orders[..i]))
    {
      var order := orders[i];
      TextStep(orders, i);
      if Kept(order) {
        var item := Get(order, "item").value;
        var quantity := Get(order, "quantity").value;
        output := output + (item.s + ": " + Decimal(quantity.n) + "\n");
      }
      i := i + 1;
    }
    assert orders[..|orders|] == orders;
  }

  /** One more order adds its line to the text when it is kept, and nothing otherwise. */
  lemma TextStep(orders: seq<Value>, i: nat)
    requires i < |orders| && forall k :: 0 <= k < |orders| ==> ReadableOrder(orders[k])
    ensures Text(KeptOrders(orders[..i + 1])) ==
      Text(KeptOrders(orders[..i])) + if Kept(orders[i]) then OrderLine(Decode(orders[i])) else ""
  {
    KeptStep(orders, i);
    if Kept(orders[i]) {
      TextSnoc(KeptOrders(orders[..i]), Decode(orders[i]));
    } else {
      assert KeptOrders(orders[..i + 1]) == KeptOrders(orders[..i]);
    }
  }

  lemma KeptStep(orders: seq<Value>, i: nat)
    requires i < |orders| && forall k :: 0 <= k < |orders| ==> ReadableOrder(orders[k])
    ensures KeptOrders(orders[..i + 1]) ==
      KeptOrders(orders[..i]) + if Kept(orders[i]) then [Decode(orders[i])] else []
  {
    assert orders[..i + 1][..i] == orders[..i];
  }

  /** The text is empty exactly when no order was kept. */
  lemma EmptyText(orders: seq<Order>)
    ensures Text(orders) == [] <==> orders == []
  {
    if orders != [] {
      assert |OrderLine(orders[|orders| - 1])| > 0;
    }
  }

  // ---------------------------------------------------------------------------
  // Content-Type dispatch

  datatype Format = Toml | Yaml

  predicate StartsWith(s: string, prefix: string) {
    |prefix| <= |s| && s[..|prefix|] == prefix
  }

  /** `ValidPayload::from_request`: the decoder chosen by the Content-Type
      header. A missing header, or one that is not visible ASCII, is `None`. */
  function SelectFormat(contentType: Option<string>): (r: Result<Format, Error>)
    ensures r == Ok(Toml) <==> contentType.Some? && StartsWith(contentType.value, "application/toml")
    ensures r == Ok(Yaml) <==>
      && contentType.Some? && !StartsWith(contentType.value, "application/toml")
      && (StartsWith(contentType.value, "application/yaml") || StartsWith(contentType.value, "application/json"))
    ensures r.Err? ==> r.error == UnsupportedMedia
  {
    match contentType
    case None => Err(UnsupportedMedia)
    case Some(ct) =>
      if StartsWith(ct, "application/toml") then Ok(Toml)
      else if StartsWith(ct, "application/yaml") || StartsWith(ct, "application/json") then Ok(Yaml)
      else Err(UnsupportedMedia)
  }

  /** Parameters after a media type (such as "; charset=utf-8") never change
      the decoder that type selects. */
  lemma ParametersKeepFormat(mediaType: string, parameters: string)
    requires SelectFormat(Some(mediaType)).Ok?
    ensures SelectFormat(Some(mediaType + parameters)) == SelectFormat(Some(mediaType))
  {
    var s := mediaType + parameters;
    forall p: string | |p| <= |mediaType| ensures s[..|p|] == mediaType[..|p|] {
    }
  }
}
