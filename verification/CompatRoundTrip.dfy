/**
 What survives a passage through the previous version: a payload that is
 translated down by one side and up by the other comes back whole, except for
 the members the previous version cannot decode, which the `Forget` functions
 name.
 */
module CompatRoundTrip {
  import opened Wrappers
  import opened Versions
  import opened Compat

  // -------------------------------------------------------- what is forgotten

  function ForgetRuntime(v: Value): (r: Value) {
    Without(v, {Exit, LossCause})
  }

  /** A session without the members the previous version cannot decode. */
  function ForgetSession(v: Value): (r: Value) {
    if !v.Object? then v
    else if Runtime in v.fields then
      ForgetSessionFields(Object(v.fields[Runtime := ForgetRuntime(v.fields[Runtime])]))
    else ForgetSessionFields(v)
  }

  function ForgetOne(site: Site, v: Value): (r: Value) {
    if site.Identity? || site.Identities? then v else ForgetSession(v)
  }

  function ForgetAll(site: Site, items: seq<Value>): (r: seq<Value>) {
    seq(|items|, i requires 0 <= i < |items| => ForgetOne(site, items[i]))
  }

  function Forget(site: Site, v: Value): (r: Value) {
    if site.Identities? || site.SessionObjects? then
      if v.Array? then Array(ForgetAll(site, v.items)) else v
    else ForgetOne(site, v)
  }

  function ForgetAt(v: Value, key: Key, site: Site): (r: Value) {
    if v.Object? && key in v.fields then Object(v.fields[key := Forget(site, v.fields[key])]) else v
  }

  /** What a success payload loses on its way through the previous version. */
  function ForgetResult(m: Method, result: Value): (r: Value) {
    match m
    case SessionList => Forget(SessionObjects, result)
    case SessionInspect => ForgetSession(result)
    case SessionNew => ForgetSession(result)
    case SessionFork => ForgetSession(result)
    case SessionResume => ForgetAt(result, Session, SessionObject)
    case SessionResize => ForgetAt(result, Session, SessionObject)
    case SessionSetMetadata => ForgetAt(result, Session, SessionObject)
    case SessionRename => ForgetAt(result, Session, SessionObject)
    case SessionWait => ForgetAt(result, Session, SessionObject)
    case _ => result
  }

  /** What an event payload loses. */
  function ForgetEvent(name: EventName, payload: Value): (r: Value) {
    match name
    case NativeRecovered => ForgetAt(payload, Session, SessionObject)
    case SessionEvent(_) => ForgetAt(payload, Session, SessionObject)
    case _ => payload
  }

  // ------------------------------------------------------------------- sites

  lemma RenameKeyBack(fields: map<Key, Value>, from: Key, to: Key, there: map<Key, Value>)
    requires from != to && RenameKey(fields, from, to) == Ok(there)
    ensures RenameKey(there, to, from) == Ok(fields)
  {
    var back := RenameKey(there, to, from).value;
    assert back == fields;
  }

  lemma RenameBack(v: Value)
    requires RenameIn(v, ToLegacy).Ok?
    ensures RenameIn(RenameIn(v, ToLegacy).value, ToCurrent) == Ok(v)
  {
    if v.Object? {
      RenameKeyBack(v.fields, WorkerInstanceId, RuntimeId, RenameIn(v, ToLegacy).value.fields);
    }
  }

  lemma RuntimeBack(v: Value)
    requires SessionRuntime(v, ToLegacy).Ok?
    ensures SessionRuntime(SessionRuntime(v, ToLegacy).value, ToCurrent) == Ok(ForgetRuntime(v))
  {
    if v.Object? {
      var kept := v.fields - {Exit, LossCause};
      var down := SessionRuntime(v, ToLegacy).value;
      assert down.fields == RenameKey(kept, WorkerInstanceId, RuntimeId).value;
      RenameKeyBack(kept, WorkerInstanceId, RuntimeId, down.fields);
    }
  }

  lemma SessionBack(v: Value)
    requires SessionInfo(v, ToLegacy).Ok?
    ensures SessionInfo(SessionInfo(v, ToLegacy).value, ToCurrent) == Ok(ForgetSession(v))
  {
    if v.Object? && Runtime in v.fields {
      RuntimeBack(v.fields[Runtime]);
      var lower := SessionRuntime(v.fields[Runtime], ToLegacy).value;
      var down := SessionInfo(v, ToLegacy).value;
      assert down == ForgetSessionFields(Object(v.fields[Runtime := lower]));
      assert down.fields[Runtime] == lower;
      var up := SessionInfo(down, ToCurrent).value;
      assert up.fields == ForgetSession(v).fields;
    }
  }

  lemma OneBack(site: Site, v: Value)
    requires ApplyOne(site, v, ToLegacy).Ok?
    ensures ApplyOne(site, ApplyOne(site, v, ToLegacy).value, ToCurrent) == Ok(ForgetOne(site, v))
  {
    if site.Identity? || site.Identities? { RenameBack(v); } else { SessionBack(v); }
  }

  lemma {:induction false} AllBack(site: Site, items: seq<Value>)
    requires ApplyAll(site, items, ToLegacy).Ok?
    ensures ApplyAll(site, ApplyAll(site, items, ToLegacy).value, ToCurrent) == Ok(ForgetAll(site, items))
  {
    if items == [] {
      assert ForgetAll(site, items) == [];
    } else {
      OneBack(site, items[0]);
      AllBack(site, items[1..]);
      var down := ApplyAll(site, items, ToLegacy).value;
      assert down[1..] == ApplyAll(site, items[1..], ToLegacy).value;
      assert ForgetAll(site, items) == [ForgetOne(site, items[0])] + ForgetAll(site, items[1..]);
    }
  }

  lemma SiteBack(site: Site, v: Value)
    requires Apply(site, v, ToLegacy).Ok?
    ensures Apply(site, Apply(site, v, ToLegacy).value, ToCurrent) == Ok(Forget(site, v))
  {
    if site.Identities? || site.SessionObjects? {
      if v.Array? { AllBack(site, v.items); }
    } else {
      OneBack(site, v);
    }
  }

  lemma AtBack(v: Value, key: Key, site: Site)
    requires ApplyAt(v, key, site, ToLegacy).Ok?
    ensures ApplyAt(ApplyAt(v, key, site, ToLegacy).value, key, site, ToCurrent) == Ok(ForgetAt(v, key, site))
  {
    if v.Object? && key in v.fields {
      SiteBack(site, v.fields[key]);
      var inner := Apply(site, v.fields[key], ToLegacy).value;
      assert v.fields[key := inner][key := Forget(site, v.fields[key])] == v.fields[key := Forget(site, v.fields[key])];
    }
  }

  /** Forgetting at an identity site forgets nothing. */
  lemma IdentitiesKept(v: Value, key: Key, site: Site)
    requires site.Identity? || site.Identities?
    ensures ForgetAt(v, key, site) == v
  {
    if v.Object? && key in v.fields {
      var x := v.fields[key];
      if site.Identities? && x.Array? {
        assert ForgetAll(site, x.items) == x.items;
      }
      assert v.fields[key := x] == v.fields;
    }
  }

  // ------------------------------------------------------------ the theorems

  /** The identity a request names already has the key of the previous version. */
  predicate CarriesOldKey(m: Method, params: Value) {
    match m
    case SessionReportNativeId => FieldOf(params, RuntimeId).Some?
    case SessionOutput => FieldOf(params, Runtime).Some? && FieldOf(FieldOf(params, Runtime).value, RuntimeId).Some?
    case SessionWait => FieldOf(params, Runtime).Some? && FieldOf(FieldOf(params, Runtime).value, RuntimeId).Some?
    case _ => false
  }

  /**
   A request a client translates down and a daemon translates up reaches the
   handler with the parameters the caller passed, up to the one option that is
   dropped; it is refused exactly when the previous version has no shape for it
   or its identity site already carries the old key.
   */
  lemma RequestRoundTrip(m: Method, params: Value)
    ensures var down := TranslateRequest(m, params, ToLegacy);
            down.Ok? ==> TranslateRequest(m, down.value, ToCurrent) == Ok(ForgetRequest(m, params))
    ensures TranslateRequest(m, params, ToLegacy).Err? <==>
            Undefined(m, params) || CarriesOldKey(m, params)
    ensures ForgetRequest(m, params) == params <==>
            !(m == SessionInput && params.Object? && Wait in params.fields &&
              FieldOf(params.fields[Wait], AllowPromptAccepted).Some?)
  {
    var down := TranslateRequest(m, params, ToLegacy);
    if down.Ok? {
      match m
      case SessionOutput => AtBack(params, Runtime, Identity); IdentitiesKept(params, Runtime, Identity);
      case SessionWait => AtBack(params, Runtime, Identity); IdentitiesKept(params, Runtime, Identity);
      case SessionReportNativeId => RenameBack(params);
      case _ =>
    }
    if m == SessionInput && params.Object? && Wait in params.fields {
      var wait := params.fields[Wait];
      if wait.Object? && AllowPromptAccepted !in wait.fields {
        assert wait.fields - {AllowPromptAccepted} == wait.fields;
      }
      if Without(wait, {AllowPromptAccepted}) == wait {
        assert params.fields[Wait := wait] == params.fields;
      } else {
        assert ForgetRequest(m, params).fields[Wait] != wait;
      }
    }
  }

  /** A result a daemon translates down and a client translates up comes back whole but for what is forgotten. */
  lemma ResultRoundTrip(m: Method, result: Value)
    ensures var down := TranslateResult(m, result, ToLegacy);
            down.Ok? ==> TranslateResult(m, down.value, ToCurrent) == Ok(ForgetResult(m, result))
  {
    if TranslateResult(m, result, ToLegacy).Ok? {
      match m
      case SessionList => SiteBack(SessionObjects, result);
      case SessionInspect => SessionBack(result);
      case SessionNew => SessionBack(result);
      case SessionFork => SessionBack(result);
      case SessionResume => AtBack(result, Session, SessionObject);
      case SessionResize => AtBack(result, Session, SessionObject);
      case SessionSetMetadata => AtBack(result, Session, SessionObject);
      case SessionRename => AtBack(result, Session, SessionObject);
      case SessionWait => AtBack(result, Session, SessionObject);
      case SessionInput => AtBack(result, Runtime, Identity); IdentitiesKept(result, Runtime, Identity);
      case SessionScreen => RenameBack(result);
      case SessionRead => RenameBack(result);
      case SessionOutput => RenameBack(result);
      case SessionRuntimeInventory =>
        AtBack(result, Entries, Identities);
        IdentitiesKept(result, Entries, Identities);
      case _ =>
    }
  }

  /** Both renames of a recovery event, in the order the adapter applies them. */
  function RecoveryRenames(fields: map<Key, Value>, d: Direction): (r: Result<map<Key, Value>, CompatError>) {
    var once :- RenameKey(fields, PreviousKeys(d).0, PreviousKeys(d).1);
    RenameKey(once, Keys(d).0, Keys(d).1)
  }

  /** The renames undo each other and do not touch the session beside them. */
  lemma RecoveryRenamesBack(fields: map<Key, Value>)
    requires RecoveryRenames(fields, ToLegacy).Ok?
    ensures RecoveryRenames(RecoveryRenames(fields, ToLegacy).value, ToCurrent) == Ok(fields)
    ensures var down := RecoveryRenames(fields, ToLegacy).value;
            FieldOf(Object(down), Session) == FieldOf(Object(fields), Session)
  {
    var half := RenameKey(fields, PreviousWorkerInstanceId, PreviousRuntimeId).value;
    var down := RenameKey(half, WorkerInstanceId, RuntimeId).value;
    var once := RenameKey(down, PreviousRuntimeId, PreviousWorkerInstanceId).value;
    assert RuntimeId !in fields && PreviousRuntimeId !in fields;
    assert once == RenameKey(fields, WorkerInstanceId, RuntimeId).value;
    RenameKeyBack(fields, WorkerInstanceId, RuntimeId, once);
  }

  /** Renaming commutes with replacing the session. */
  lemma RecoveryRenamesFrame(fields: map<Key, Value>, session: Value)
    requires RecoveryRenames(fields, ToLegacy).Ok?
    ensures RecoveryRenames(fields[Session := session], ToLegacy) ==
            Ok(RecoveryRenames(fields, ToLegacy).value[Session := session])
  {
    var there := fields[Session := session];
    var half := RenameKey(fields, PreviousWorkerInstanceId, PreviousRuntimeId).value;
    assert RenameKey(there, PreviousWorkerInstanceId, PreviousRuntimeId).value == half[Session := session];
    var down := RenameKey(half, WorkerInstanceId, RuntimeId).value;
    assert RenameKey(half[Session := session], WorkerInstanceId, RuntimeId).value == down[Session := session];
  }

  lemma RecoveryBack(payload: Value)
    requires TranslateEvent(NativeRecovered, payload, ToLegacy).Ok?
    ensures TranslateEvent(NativeRecovered, TranslateEvent(NativeRecovered, payload, ToLegacy).value, ToCurrent)
            == Ok(ForgetEvent(NativeRecovered, payload))
  {
    if payload.Object? {
      var inner := ApplyAt(payload, Session, SessionObject, ToLegacy).value;
      var down := RecoveryRenames(inner.fields, ToLegacy).value;
      assert TranslateEvent(NativeRecovered, payload, ToLegacy) == Ok(Object(down));
      RecoveryRenamesBack(inner.fields);
      if Session in payload.fields {
        AtBack(payload, Session, SessionObject);
        var up := ForgetAt(payload, Session, SessionObject);
        var session := up.fields[Session];
        assert inner.fields[Session := session] == up.fields;
        RecoveryRenamesFrame(inner.fields, session);
        RecoveryRenamesBack(up.fields);
        assert ApplyAt(Object(down), Session, SessionObject, ToCurrent) == Ok(Object(down[Session := session]));
      }
    }
  }

  /** An event a daemon translates down and a subscriber translates up, or one the previous version never had. */
  lemma EventRoundTrip(name: EventName, payload: Value)
    ensures DowngradeEvent(name, payload) == Ok(None) <==> name.NewEvent?
    ensures var down := DowngradeEvent(name, payload);
            down.Ok? && down.value.Some? ==>
              TranslateEvent(name, down.value.value, ToCurrent) == Ok(ForgetEvent(name, payload))
  {
    if !name.NewEvent? && TranslateEvent(name, payload, ToLegacy).Ok? {
      match name
      case AgentState => AtBack(payload, Runtime, Identity); IdentitiesKept(payload, Runtime, Identity);
      case SubagentState => AtBack(payload, Runtime, Identity); IdentitiesKept(payload, Runtime, Identity);
      case RuntimeDiscovered => AtBack(payload, Entry, Identity); IdentitiesKept(payload, Entry, Identity);
      case NativeRecovered => RecoveryBack(payload);
      case SessionEvent(_) => AtBack(payload, Session, SessionObject);
      case _ =>
    }
  }

  /**
   One whole call between two builds of this protocol on version `v`: the
   handler sees the caller's parameters and the caller sees the handler's
   result, each up to what is forgotten on the previous version and exactly on
   the current one.
   */
  lemma CallPreservesMeaning(v: Version, m: Method, params: Value, result: Value)
    requires WINDOW.Contains(v)
    requires DowngradeParams(v, m, params).Ok?
    requires DowngradeResult(v, m, result).Ok?
    ensures UpgradeParams(v, m, DowngradeParams(v, m, params).value) ==
            Ok(if v == CURRENT then params else ForgetRequest(m, params))
    ensures UpgradeResult(v, m, DowngradeResult(v, m, result).value) ==
            Ok(if v == CURRENT then result else ForgetResult(m, result))
  {
    RequestRoundTrip(m, params);
    ResultRoundTrip(m, result);
  }

  /** The health probe and the capability inspection need no version to be sent. */
  lemma ProbesAreVersionIndependent(params: Value)
    ensures VersionIndependent(DaemonHealth, params)
    ensures VersionIndependent(HostInspect, params)
    ensures VersionIndependent(HostDiscover, params)
  {
  }

  /** A keyed or secret-carrying `session.new` is never version-independent. */
  lemma KeyedCreateNeedsVersion(params: Value)
    requires HasSessionNewOption(params)
    ensures !VersionIndependent(SessionNew, params)
  {
    assert DowngradeParams(PREVIOUS, SessionNew, params).Err?;
  }

  /** Forgetting is a projection: a second passage loses nothing more. */
  lemma ForgetSessionIdempotent(v: Value)
    ensures ForgetSession(ForgetSession(v)) == ForgetSession(v)
  {
    if v.Object? {
      var once := ForgetSession(v);
      if Warnings in once.fields && once.fields[Warnings].Array? {
        FilterIdempotent(v.fields[Warnings].items);
      }
      if Runtime in once.fields {
        var runtime := v.fields[Runtime];
        assert once.fields[Runtime] == ForgetRuntime(runtime);
        assert runtime.Object? ==>
          (runtime.fields - {Exit, LossCause}) - {Exit, LossCause} == runtime.fields - {Exit, LossCause};
        assert once.fields[Runtime := once.fields[Runtime]] == once.fields;
      }
      assert ForgetSession(once).fields == once.fields;
    }
  }

  lemma {:induction false} FilterIdempotent(items: seq<Value>)
    ensures Filter(Filter(items)) == Filter(items)
  {
    if items != [] {
      FilterIdempotent(items[1..]);
      if KnownWarning(items[0]) {
        assert Filter(items)[1..] == Filter(items[1..]);
      }
    }
  }
}
