/** Session targets: `<session>` or `<host>/<session>` (crates/cli/src/target.rs). */
module Targets {
  import opened Wrappers
  import opened Strings

  datatype Target = Target(host: Option<string>, sessionId: string)

  datatype TargetError = Empty | MissingSessionId | MissingHost | TooManySeparators

  /** The characters `trim` removes: the Unicode White_Space property. */
  predicate IsSpace(c: char) {
    || '\U{0009}' <= c <= '\U{000D}' || c == ' ' || c == '\U{0085}' || c == '\U{00A0}' || c == '\U{1680}'
    || '\U{2000}' <= c <= '\U{200A}' || c == '\U{2028}' || c == '\U{2029}' || c == '\U{202F}'
    || c == '\U{205F}' || c == '\U{3000}'
  }

  function TrimStart(s: string): (r: string)
    ensures r == "" || !IsSpace(r[0])
    ensures |r| <= |s| && r == s[|s| - |r|..]
    ensures s == "" || !IsSpace(s[0]) ==> r == s
    ensures forall i | 0 <= i < |s| - |r| :: IsSpace(s[i])
  {
    if s != "" && IsSpace(s[0]) then TrimStart(s[1..]) else s
  }

  function TrimEnd(s: string): (r: string)
    ensures r == "" || !IsSpace(r[|r| - 1])
    ensures |r| <= |s| && r == s[..|r|]
    ensures s == "" || !IsSpace(s[|s| - 1]) ==> r == s
    ensures forall i | |r| <= i < |s| :: IsSpace(s[i])
  {
    if s != "" && IsSpace(s[|s| - 1]) then TrimEnd(s[..|s| - 1]) else s
  }

  function Trim(s: string): (r: string) {
    TrimEnd(TrimStart(s))
  }

  predicate IsTrimmed(s: string) {
    s == "" || (!IsSpace(s[0]) && !IsSpace(s[|s| - 1]))
  }

  lemma TrimTrims(s: string)
    ensures IsTrimmed(Trim(s))
    ensures IsTrimmed(s) <==> Trim(s) == s
  {
    hide IsSpace, TrimStart, TrimEnd;
    var r := Trim(s);
    if r != "" {
      assert r[0] == TrimStart(s)[0];
    }
  }

  function Parse(s: string): (r: Result<Target, TargetError>) {
    var t := Trim(s);
    if t == "" then Err(Empty)
    else
      var parts := Split(t, '/');
      if |parts| == 1 then Ok(Target(None, parts[0]))
      else if |parts| == 2 then
        if parts[0] == "" then Err(MissingHost)
        else if parts[1] == "" then Err(MissingSessionId)
        else Ok(Target(Some(parts[0]), parts[1]))
      else Err(TooManySeparators)
  }

  function Print(t: Target): (s: string) {
    if t.host.Some? then t.host.value + "/" + t.sessionId else t.sessionId
  }

  /** The targets a string can denote. */
  predicate WellFormed(t: Target) {
    && t.sessionId != "" && '/' !in t.sessionId
    && (t.host.Some? ==> t.host.value != "" && '/' !in t.host.value)
    && IsTrimmed(Print(t))
  }

  /** Printing a parsed target gives the trimmed input. */
  lemma PrintOfParse(s: string)
    requires Parse(s).Ok?
    ensures Print(Parse(s).value) == Trim(s)
  {
    JoinSplit(Trim(s), '/');
    var parts := Split(Trim(s), '/');
    if |parts| == 2 {
      assert Join(parts, '/') == parts[0] + ['/'] + Join(parts[1..], '/');
    }
  }

  /** What a parse yields is well-formed. */
  lemma ParsedIsWellFormed(s: string)
    requires Parse(s).Ok?
    ensures WellFormed(Parse(s).value)
  {
    hide Trim, IsTrimmed, Split, Print;
    PrintOfParse(s);
    TrimTrims(s);
    JoinSplit(Trim(s), '/');
    var parts := Split(Trim(s), '/');
    assert parts[0] in parts && parts[|parts| - 1] in parts;
  }

  lemma WellFormedParsesBack(t: Target)
    requires WellFormed(t)
    ensures Parse(Print(t)) == Ok(t)
  {
    TrimTrims(Print(t));
    hide Split, Trim, IsTrimmed;
    SplitFree(t.sessionId, '/');
    if t.host.Some? {
      SplitFree(t.host.value, '/');
      SplitConcat(t.host.value, t.sessionId, '/');
      assert Print(t) == t.host.value + ['/'] + t.sessionId;
    }
  }

  /** A target parses back from its printed form exactly when it is well-formed. */
  lemma ParseOfPrintIffWellFormed(t: Target)
    ensures Parse(Print(t)) == Ok(t) <==> WellFormed(t)
  {
    hide Parse, Print, WellFormed;
    if Parse(Print(t)) == Ok(t) {
      ParsedIsWellFormed(Print(t));
    }
    if WellFormed(t) {
      WellFormedParsesBack(t);
    }
  }

  /** Printing a parsed target and parsing it again changes nothing. */
  lemma ParsedIsStable(s: string)
    requires Parse(s).Ok?
    ensures Parse(Print(Parse(s).value)) == Parse(s)
  {
    ParsedIsWellFormed(s);
    ParseOfPrintIffWellFormed(Parse(s).value);
  }

  /** What a string denotes: the text between its outer spaces, cut at its one separator if it has one. */
  lemma ParsesIff(s: string, t: Target)
    ensures Parse(s) == Ok(t) <==>
            && Trim(s) == Print(t) && t.sessionId != "" && '/' !in t.sessionId
            && (t.host.Some? ==> t.host.value != "" && '/' !in t.host.value)
  {
    TrimTrims(s);
    if Parse(s) == Ok(t) {
      PrintOfParse(s);
      ParsedIsWellFormed(s);
    }
    hide Trim, IsTrimmed, Split;
    if Trim(s) == Print(t) && t.sessionId != "" && '/' !in t.sessionId
       && (t.host.Some? ==> t.host.value != "" && '/' !in t.host.value)
    {
      TrimTrims(Trim(s));
      WellFormedParsesBack(t);
    }
  }

  /** Text with two separators. */
  ghost predicate HasTwoSeparators(t: string) {
    exists a: string, b: string, c: string :: t == a + ['/'] + (b + ['/'] + c)
  }

  lemma ManyParts(t: string)
    ensures |Split(t, '/')| >= 3 <==> HasTwoSeparators(t)
  {
    var parts := Split(t, '/');
    if |parts| >= 3 {
      JoinSplit(t, '/');
      assert parts[1..][1..] == parts[2..];
      assert t == parts[0] + ['/'] + (parts[1] + ['/'] + Join(parts[2..], '/'));
    }
    forall a: string, b: string, c: string | t == a + ['/'] + (b + ['/'] + c)
      ensures |parts| >= 3
    {
      SplitConcat(a, b + ['/'] + c, '/');
      SplitConcat(b, c, '/');
    }
  }

  lemma TwoParts(t: string, a: string, b: string)
    requires '/' !in a && '/' !in b
    ensures Split(t, '/') == [a, b] <==> t == a + ['/'] + b
  {
    SplitConcat(a, b, '/');
    SplitFree(a, '/');
    SplitFree(b, '/');
    JoinSplit(t, '/');
    if Split(t, '/') == [a, b] {
      assert [a, b][1..] == [b];
    }
  }

  /** A first part that is empty, with one more part. */
  lemma NoHost(t: string)
    ensures |Split(t, '/')| == 2 && Split(t, '/')[0] == "" <==> t != "" && t[0] == '/' && '/' !in t[1..]
  {
    var parts := Split(t, '/');
    if |parts| == 2 && parts[0] == "" {
      assert parts[1] in parts && parts == ["", parts[1]];
      TwoParts(t, "", parts[1]);
    }
    if t != "" && t[0] == '/' && '/' !in t[1..] {
      TwoParts(t, "", t[1..]);
    }
  }

  /** A last part that is empty, with a nonempty one before it. */
  lemma NoSession(t: string)
    ensures |Split(t, '/')| == 2 && Split(t, '/')[0] != "" && Split(t, '/')[1] == "" <==>
            |t| > 1 && t[|t| - 1] == '/' && '/' !in t[..|t| - 1]
  {
    var parts := Split(t, '/');
    if |parts| == 2 && parts[0] != "" && parts[1] == "" {
      assert parts[0] in parts && parts == [parts[0], ""];
      TwoParts(t, parts[0], "");
    }
    if |t| > 1 && t[|t| - 1] == '/' && '/' !in t[..|t| - 1] {
      TwoParts(t, t[..|t| - 1], "");
    }
  }

  lemma OnePart(t: string)
    ensures |Split(t, '/')| == 1 <==> '/' !in t
    ensures '/' !in t ==> Split(t, '/') == [t]
  {
    JoinSplit(t, '/');
    assert Split(t, '/')[0] in Split(t, '/');
    if '/' !in t {
      SplitFree(t, '/');
    }
  }

  /** Which strings are refused and why. */
  lemma ParseErrorsAreExact(s: string)
    ensures var t := Trim(s);
            && (Parse(s) == Err(Empty) <==> t == "")
            && (Parse(s) == Err(TooManySeparators) <==> HasTwoSeparators(t))
            && (Parse(s) == Err(MissingHost) <==> t != "" && t[0] == '/' && '/' !in t[1..])
            && (Parse(s) == Err(MissingSessionId) <==> |t| > 1 && t[|t| - 1] == '/' && '/' !in t[..|t| - 1])
            && (Parse(s).Ok? && Parse(s).value.host.None? <==> t != "" && '/' !in t)
  {
    hide Trim, Split, HasTwoSeparators;
    var t := Trim(s);
    ManyParts(t);
    NoHost(t);
    NoSession(t);
    OnePart(t);
    NothingSplit();
  }

  lemma NothingSplit()
    ensures !HasTwoSeparators("")
  {
  }
}
