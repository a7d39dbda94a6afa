/**
 Remote route syntax: `<selector>` or `<selector>@<port>`
 (crates/client/src/transport.rs, `RemoteTarget::parse` and
 `remote_host_with_port`).
 */
module Routes {
  import opened Wrappers
  import opened Strings

  const AT: char := '@'
  const U16_MAX: nat := 0xFFFF

  type Port = p: int | 0 < p <= U16_MAX witness 1

  datatype RemoteTarget = RemoteTarget(selector: string, port: Option<Port>)

  datatype RouteError = BadSelector | BadPort

  /** The standard 16-bit parser: an optional '+', then digits, leading zeros allowed. */
  function ParseU16(s: string): (r: Option<nat>)
    ensures r.Some? ==> r.value <= U16_MAX
  {
    var digits := if |s| > 1 && s[0] == '+' then s[1..] else s;
    if digits == "" || exists c | c in digits :: !IsDigit(c) then None
    else
      var n := DigitsValue(digits);
      if n > U16_MAX then None else Some(n)
  }

  predicate IsSelector(s: string) {
    s != "" && AT !in s
  }

  function Parse(route: string): (r: Result<RemoteTarget, RouteError>) {
    match SplitLast(route, AT)
    case None => Ok(RemoteTarget(route, None))
    case Some((selector, raw)) =>
      if !IsSelector(selector) then Err(BadSelector)
      else
        var port := ParseU16(raw);
        if port.None? || port.value == 0 then Err(BadPort)
        else Ok(RemoteTarget(selector, Some(port.value)))
  }

  function Print(host: string, port: nat): (r: Result<string, RouteError>)
    requires port <= U16_MAX
  {
    if !IsSelector(host) then Err(BadSelector)
    else if port == 0 then Err(BadPort)
    else Ok(host + [AT] + Decimal(port))
  }

  lemma ParseU16OfDecimal(n: nat)
    requires n <= U16_MAX
    ensures ParseU16(Decimal(n)) == Some(n)
  {
    var s := Decimal(n);
    assert s[0] in s;
    DecimalValue(n);
  }

  /** Every accepted pair parses back, so no two pairs print alike. */
  lemma ParseOfPrint(host: string, port: Port)
    requires IsSelector(host)
    ensures Print(host, port).Ok?
    ensures Parse(Print(host, port).value) == Ok(RemoteTarget(host, Some(port)))
  {
    var text := Decimal(port);
    assert AT !in text;
    SplitLastUnique(host, text, AT);
    ParseU16OfDecimal(port);
  }

  lemma PrintInjective(host: string, port: Port, host': string, port': Port)
    requires Print(host, port).Ok? && Print(host', port') == Print(host, port)
    ensures host == host' && port == port'
  {
    ParseOfPrint(host, port);
    ParseOfPrint(host', port');
  }

  /** A parsed route with a port prints to one that parses the same. */
  lemma ReprintParsesTheSame(route: string)
    requires Parse(route).Ok? && Parse(route).value.port.Some?
    ensures var t := Parse(route).value;
            Print(t.selector, t.port.value).Ok? && Parse(Print(t.selector, t.port.value).value) == Ok(t)
  {
    var t := Parse(route).value;
    ParseOfPrint(t.selector, t.port.value);
  }

  /**
   Printing gives back the parsed text exactly when the port text starts with a
   digit other than zero.
   */
  lemma ReprintIsTheRouteIffCanonical(route: string)
    requires Parse(route).Ok? && Parse(route).value.port.Some?
    ensures var t := Parse(route).value;
            var raw := SplitLast(route, AT).value.1;
            Print(t.selector, t.port.value) == Ok(route) <==> raw != "" && '1' <= raw[0] <= '9'
  {
    hide SplitLast, DigitsValue;
    var t := Parse(route).value;
    var (selector, raw) := SplitLast(route, AT).value;
    assert Print(t.selector, t.port.value) == Ok(route) <==> Decimal(t.port.value) == raw by {
      SameTail(selector, Decimal(t.port.value), raw);
    }
    CanonicalText(raw, t.port.value);
  }

  lemma SameTail(selector: string, a: string, b: string)
    ensures selector + [AT] + a == selector + [AT] + b <==> a == b
  {
    assert (selector + [AT] + a)[|selector| + 1..] == a;
    assert (selector + [AT] + b)[|selector| + 1..] == b;
  }

  /** A port text is the decimal form of its number exactly when it starts with a digit other than zero. */
  lemma CanonicalText(raw: string, port: nat)
    requires ParseU16(raw) == Some(port) && port > 0
    ensures Decimal(port) == raw <==> raw != "" && '1' <= raw[0] <= '9'
  {
    hide DigitsValue, Decimal;
    if Decimal(port) == raw {
      DecimalLeads(port);
      assert raw[0] in raw;
    }
    if raw != "" && '1' <= raw[0] <= '9' {
      DecimalOfDigits(raw);
    }
  }

  lemma NonCanonicalPort()
    ensures ParseU16("+80") == Some(80) && ParseU16("080") == Some(80) && Decimal(80) == "80"
    ensures ParseU16("+") == None && ParseU16("65536") == None
  {
    assert "+80"[1..] == "80";
    assert DigitsValue("8") == 8 by { assert "8"[..0] == ""; }
    assert DigitsValue("80") == 80 by { assert "80"[..1] == "8"; }
    assert DigitsValue("0") == 0 by { assert "0"[..0] == ""; }
    assert DigitsValue("08") == 8 by { assert "08"[..1] == "0"; }
    assert DigitsValue("080") == 80 by { assert "080"[..2] == "08"; }
    assert Decimal(80) == "80" by { assert 80 / 10 == 8 && 80 % 10 == 0 && Decimal(8) == "8"; }
    assert '+' in "+" && !IsDigit('+');
    assert DigitsValue("6") == 6 by { assert "6"[..0] == ""; }
    assert DigitsValue("65") == 65 by { assert "65"[..1] == "6"; }
    assert DigitsValue("655") == 655 by { assert "655"[..2] == "65"; }
    assert DigitsValue("6553") == 6553 by { assert "6553"[..3] == "655"; }
    assert DigitsValue("65536") == 65536 by { assert "65536"[..4] == "6553"; }
  }

  /** Two routes that parse alike and do not print as they were written. */
  lemma NonCanonicalRoutes()
    ensures Parse("h@+80") == Ok(RemoteTarget("h", Some(80))) == Parse("h@080")
    ensures Print("h", 80) == Ok("h@80")
  {
    hide SplitLast, ParseU16, Decimal;
    NonCanonicalPort();
    SplitLastUnique("h", "+80", AT);
    SplitLastUnique("h", "080", AT);
    assert "h" + [AT] + "+80" == "h@+80" && "h" + [AT] + "080" == "h@080" && "h" + [AT] + "80" == "h@80";
  }

  /** The digits of a port text: an optional '+' before decimal digits, the value in 1..65535. */
  predicate IsPortText(raw: string, digits: string) {
    && (raw == digits || raw == "+" + digits)
    && digits != "" && (forall c | c in digits :: c in "0123456789")
    && (forall c | c in digits :: IsDigit(c)) && 1 <= DigitsValue(digits) <= 65535
  }

  /** A route with a port: what is before its only '@' and the number after it. */
  lemma PortRouteIff(selector: string, raw: string, digits: string)
    requires AT !in raw && (digits == if |raw| > 1 && raw[0] == '+' then raw[1..] else raw)
    ensures Parse(selector + "@" + raw).Ok? <==> selector != "" && AT !in selector && IsPortText(raw, digits)
    ensures Parse(selector + "@" + raw).Ok? ==>
              Parse(selector + "@" + raw).value == RemoteTarget(selector, Some(DigitsValue(digits)))
  {
    hide SplitLast, DigitsValue;
    assert "@" == [AT];
    SplitLastUnique(selector, raw, AT);
    assert |raw| > 1 && raw[0] == '+' ==> raw == "+" + raw[1..];
    assert forall c :: IsDigit(c) <==> c in "0123456789";
  }

  /** Which routes are refused, and which select no port. */
  lemma ParseIsExact(route: string)
    ensures Parse(route) == Ok(RemoteTarget(route, None)) <==> AT !in route
    ensures Parse(route).Ok? && Parse(route).value.port.None? ==> AT !in route
    ensures Parse(route) == Err(BadSelector) <==>
            (route != "" && route[0] == AT) || exists i, j | 0 <= i < j < |route| :: route[i] == route[j] == AT
    ensures Parse(route).Ok? && AT in route ==>
            exists raw: string :: route == Parse(route).value.selector + [AT] + raw
                          && AT !in Parse(route).value.selector
                          && ParseU16(raw) == Some(Parse(route).value.port.value)
  {
    hide SplitLast, ParseU16;
    if AT in route {
      var (selector, raw) := SplitLast(route, AT).value;
      var n := |selector|;
      assert route[n] == AT && route[..n] == selector && route[n + 1..] == raw;
      assert forall i | n < i < |route| :: route[i] == raw[i - n - 1];
      assert forall i | 0 <= i < n :: route[i] == selector[i];
      if AT in selector {
        var i :| 0 <= i < n && selector[i] == AT;
        assert route[i] == route[n] == AT;
      }
    }
  }
}
