/**
 The edge adapter between the current protocol version and the previous one
 (crates/protocol/src/compat/mod.rs and compat/v3.rs).

 Payloads are JSON values. The method, event and key names the adapter spells
 are constructors; every other name is `Other`/`Named`.
 */
module Compat {
  import opened Wrappers
  import opened Versions

  datatype Method =
    | DaemonHealth | HostInspect | HostDiscover | Subscribe
    | SessionNew | SessionFork | SessionInspect | SessionList | SessionInput
    | SessionOutput | SessionWait | SessionReportNativeId | SessionResume
    | SessionResize | SessionSetMetadata | SessionRename | SessionScreen
    | SessionRead | SessionRuntimeInventory
    | Introduced(name: string)  // a method added after the previous version
    | Other(name: string)

  datatype EventName =
    | AgentState | SubagentState | RuntimeDiscovered | NativeRecovered
    | SessionEvent(name: string)   // an event whose payload carries a session
    | PlainEvent(name: string)     // known to the previous version, no session
    | NewEvent(name: string)       // never defined by the previous version

  datatype Key =
    | WorkerInstanceId | RuntimeId | PreviousWorkerInstanceId | PreviousRuntimeId
    | Runtime | Exit | LossCause | NativeLastActivityAt | Background | OutputForceClosed
    | CapabilityRefusals | Placement | SpawnedBy | Warnings | Kind | Session | Entries
    | Entry | Wait | AllowPromptAccepted | BranchSource | OnDiverged | InputAckTimeoutMs
    | SecretEnv | ClientRequestId | Filters | FilterKey
    | SkipRuntimeProbes | SecretEnvSupported | RequestIdSupported
    | Named(name: string)

  datatype Value =
    | Null
    | Bool(b: bool)
    | Number(n: int)
    | Text(s: string)
    | Array(items: seq<Value>)
    | Object(fields: map<Key, Value>)

  datatype CompatError =
    | UnsupportedVersion(version: Version)
    | Conflict(key: Key)
    | MethodNotDefined(name: Method)

  type Translated = Result<Value, CompatError>

  datatype Direction = ToCurrent | ToLegacy

  /** Methods whose handler forwards the asking client's range to other hosts. */
  predicate RangeForwarding(m: Method) { m == HostDiscover }

  /** Session warning kinds the previous version decodes. */
  const KNOWN_WARNING_KINDS: set<string> := {"fetch", "base_branch_fallback", "setup_script", "hook"}

  /** List filters only the current version knows. */
  const CURRENT_FILTERS: set<string> := {"metadata_eq", "metadata_has", "spawned_by"}

  // ------------------------------------------------------- translation sites

  function FieldOf(v: Value, key: Key): (r: Option<Value>) {
    if v.Object? && key in v.fields then Some(v.fields[key]) else None
  }

  /** Moves `from` to `to`, refusing an object that already has `to`. */
  function RenameKey(fields: map<Key, Value>, from: Key, to: Key): (r: Result<map<Key, Value>, CompatError>)
    requires from != to
    ensures r.Err? <==> to in fields
    ensures r.Ok? ==> from !in r.value && (to in r.value <==> from in fields)
    ensures r.Ok? && from in fields ==> r.value[to] == fields[from]
    ensures r.Ok? ==> r.value - {to} == fields - {from}
  {
    if to in fields then Err(Conflict(to))
    else if from in fields then Ok((fields - {from})[to := fields[from]])
    else Ok(fields)
  }

  function Keys(d: Direction): (r: (Key, Key))
    ensures r.0 != r.1
  {
    if d.ToCurrent? then (RuntimeId, WorkerInstanceId) else (WorkerInstanceId, RuntimeId)
  }

  function PreviousKeys(d: Direction): (r: (Key, Key))
    ensures r.0 != r.1
  {
    if d.ToCurrent? then (PreviousRuntimeId, PreviousWorkerInstanceId)
    else (PreviousWorkerInstanceId, PreviousRuntimeId)
  }

  /** Renames the worker instance key of an object. */
  function RenameIn(v: Value, d: Direction): (r: Translated) {
    if v.Object? then
      var fields :- RenameKey(v.fields, Keys(d).0, Keys(d).1);
      Ok(Object(fields))
    else Ok(v)
  }

  function Without(v: Value, keys: set<Key>): (r: Value) {
    if v.Object? then Object(v.fields - keys) else v
  }

  /** The runtime of a session: renamed and, toward the previous version, without what it lacks. */
  function SessionRuntime(v: Value, d: Direction): (r: Translated) {
    var renamed :- RenameIn(v, d);
    Ok(if d.ToLegacy? then Without(renamed, {Exit, LossCause}) else renamed)
  }

  predicate KnownWarning(w: Value) {
    var kind := FieldOf(w, Kind);
    kind.Some? && kind.value.Text? && kind.value.s in KNOWN_WARNING_KINDS
  }

  function Filter(items: seq<Value>): (r: seq<Value>) {
    if items == [] then []
    else if KnownWarning(items[0]) then [items[0]] + Filter(items[1..])
    else Filter(items[1..])
  }

  /** A session object as the previous version can decode it, runtime aside. */
  function ForgetSessionFields(v: Value): (r: Value)
    requires v.Object?
    ensures r.Object?
  {
    var kept := v.fields - {NativeLastActivityAt, Background, OutputForceClosed,
                            CapabilityRefusals, Placement, SpawnedBy};
    Object(if Warnings in kept && kept[Warnings].Array?
           then kept[Warnings := Array(Filter(kept[Warnings].items))]
           else kept)
  }

  function SessionInfo(v: Value, d: Direction): (r: Translated) {
    if !v.Object? then Ok(v)
    else
      var fields :- if Runtime in v.fields then
                      var runtime :- SessionRuntime(v.fields[Runtime], d);
                      Ok(v.fields[Runtime := runtime])
                    else Ok(v.fields);
      Ok(if d.ToLegacy? then ForgetSessionFields(Object(fields)) else Object(fields))
  }

  /** What is translated at one place of a payload. */
  datatype Site =
    | Identity      // an object that carries a worker instance
    | Identities    // an array of them
    | SessionObject // a session
    | SessionObjects  // an array of sessions

  /** Translates one item of an array site, or the object of an object site. */
  function ApplyOne(site: Site, v: Value, d: Direction): (r: Translated) {
    if site.Identity? || site.Identities? then RenameIn(v, d) else SessionInfo(v, d)
  }

  /** Translates every item, stopping at the first failure. */
  function ApplyAll(site: Site, items: seq<Value>, d: Direction): (r: Result<seq<Value>, CompatError>) {
    if items == [] then Ok([])
    else
      var first :- ApplyOne(site, items[0], d);
      var rest :- ApplyAll(site, items[1..], d);
      Ok([first] + rest)
  }

  function Apply(site: Site, v: Value, d: Direction): (r: Translated) {
    if site.Identities? || site.SessionObjects? then
      if v.Array? then
        var items :- ApplyAll(site, v.items, d);
        Ok(Array(items))
      else Ok(v)
    else ApplyOne(site, v, d)
  }

  /** Translates the member `key` of an object that has one; anything else is kept. */
  function ApplyAt(v: Value, key: Key, site: Site, d: Direction): (r: Translated) {
    if v.Object? && key in v.fields then
      var inner :- Apply(site, v.fields[key], d);
      Ok(Object(v.fields[key := inner]))
    else Ok(v)
  }

  // ---------------------------------------------------------------- requests

  predicate IsNull(v: Option<Value>) { v.None? || v.value.Null? }

  predicate HasSessionNewOption(params: Value) {
    exists key | key in {BranchSource, OnDiverged, InputAckTimeoutMs, SecretEnv, ClientRequestId} ::
      !IsNull(FieldOf(params, key))
  }

  predicate HasCurrentFilter(params: Value) {
    var filters := FieldOf(params, Filters);
    filters.Some? && filters.value.Array? &&
    exists f | f in filters.value.items ::
      var key := FieldOf(f, FilterKey);
      key.Some? && key.value.Text? && key.value.s in CURRENT_FILTERS
  }

  /** A request the previous version has no shape for. */
  predicate Undefined(m: Method, params: Value) {
    || m.Introduced?
    || (m == SessionList && HasCurrentFilter(params))
    || (m == SessionNew && HasSessionNewOption(params))
  }

  /** `params` without the one member that is dropped rather than refused. */
  function ForgetRequest(m: Method, params: Value): (r: Value) {
    if m == SessionInput && params.Object? && Wait in params.fields then
      Object(params.fields[Wait := Without(params.fields[Wait], {AllowPromptAccepted})])
    else params
  }

  function RenameRequest(m: Method, params: Value, d: Direction): (r: Translated) {
    match m
    case SessionOutput => ApplyAt(params, Runtime, Identity, d)
    case SessionWait => ApplyAt(params, Runtime, Identity, d)
    case SessionReportNativeId => RenameIn(params, d)
    case _ => Ok(params)
  }

  function TranslateRequest(m: Method, params: Value, d: Direction): (r: Translated) {
    if m.Introduced? || (d.ToLegacy? && Undefined(m, params)) then Err(MethodNotDefined(m))
    else RenameRequest(m, if d.ToLegacy? then ForgetRequest(m, params) else params, d)
  }

  // ----------------------------------------------------------------- results

  function TranslateResult(m: Method, result: Value, d: Direction): (r: Translated) {
    match m
    case Introduced(_) => Err(MethodNotDefined(m))
    case SessionList => Apply(SessionObjects, result, d)
    case SessionInspect => SessionInfo(result, d)
    case SessionNew => SessionInfo(result, d)
    case SessionFork => SessionInfo(result, d)
    case SessionResume => ApplyAt(result, Session, SessionObject, d)
    case SessionResize => ApplyAt(result, Session, SessionObject, d)
    case SessionSetMetadata => ApplyAt(result, Session, SessionObject, d)
    case SessionRename => ApplyAt(result, Session, SessionObject, d)
    case SessionWait => ApplyAt(result, Session, SessionObject, d)
    case SessionInput => ApplyAt(result, Runtime, Identity, d)
    case SessionScreen => RenameIn(result, d)
    case SessionRead => RenameIn(result, d)
    case SessionOutput => RenameIn(result, d)
    case SessionRuntimeInventory => ApplyAt(result, Entries, Identities, d)
    case _ => Ok(result)
  }

  // ------------------------------------------------------------------ events

  function TranslateEvent(name: EventName, payload: Value, d: Direction): (r: Translated) {
    match name
    case AgentState => ApplyAt(payload, Runtime, Identity, d)
    case SubagentState => ApplyAt(payload, Runtime, Identity, d)
    case RuntimeDiscovered => ApplyAt(payload, Entry, Identity, d)
    case NativeRecovered =>
      var outer :- ApplyAt(payload, Session, SessionObject, d);
      if outer.Object? then
        var once :- RenameKey(outer.fields, PreviousKeys(d).0, PreviousKeys(d).1);
        var twice :- RenameKey(once, Keys(d).0, Keys(d).1);
        Ok(Object(twice))
      else Ok(outer)
    case SessionEvent(_) => ApplyAt(payload, Session, SessionObject, d)
    case _ => Ok(payload)
  }

  /** Toward the previous version an event it never defined is withheld. */
  function DowngradeEvent(name: EventName, payload: Value): (r: Result<Option<Value>, CompatError>) {
    if name.NewEvent? then Ok(None)
    else
      var v :- TranslateEvent(name, payload, ToLegacy);
      Ok(Some(v))
  }

  // ------------------------------------------------- entry points by version

  function DowngradeParams(v: Version, m: Method, params: Value): (r: Translated) {
    if v == CURRENT then Ok(params)
    else if v == PREVIOUS then TranslateRequest(m, params, ToLegacy)
    else Err(UnsupportedVersion(v))
  }

  function UpgradeParams(v: Version, m: Method, params: Value): (r: Translated) {
    if v == CURRENT then Ok(params)
    else if v == PREVIOUS then TranslateRequest(m, params, ToCurrent)
    else Err(UnsupportedVersion(v))
  }

  function DowngradeResult(v: Version, m: Method, result: Value): (r: Translated) {
    if v == CURRENT then Ok(result)
    else if v == PREVIOUS then TranslateResult(m, result, ToLegacy)
    else Err(UnsupportedVersion(v))
  }

  function UpgradeResult(v: Version, m: Method, result: Value): (r: Translated) {
    if v == CURRENT then Ok(result)
    else if v == PREVIOUS then TranslateResult(m, result, ToCurrent)
    else Err(UnsupportedVersion(v))
  }

  function UpgradeEvent(v: Version, name: EventName, payload: Value): (r: Translated) {
    if v == CURRENT then Ok(payload)
    else if v == PREVIOUS then TranslateEvent(name, payload, ToCurrent)
    else Err(UnsupportedVersion(v))
  }

  /** Whether the request means the same in every older version of the window. */
  predicate VersionIndependent(m: Method, params: Value) {
    forall v: Version | WINDOW.minimum <= v < CURRENT :: DowngradeParams(v, m, params) == Ok(params)
  }
}
