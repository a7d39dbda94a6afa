/**
 What the previous version is shown and what it is not: the members a downgraded
 payload holds, spelled out (crates/protocol/src/compat/v3.rs).
 */
module CompatLegacy {
  import opened Wrappers
  import opened Versions
  import opened Compat
  import opened CompatRoundTrip

  predicate Lacks(v: Value, keys: set<Key>) {
    forall key | key in keys :: FieldOf(v, key).None?
  }

  /** A warning of a kind the previous version decodes. */
  predicate IsLegacyWarning(w: Value) {
    FieldOf(w, Kind) in {Some(Text("fetch")), Some(Text("base_branch_fallback")), Some(Text("setup_script")),
                         Some(Text("hook"))}
  }

  /** A session the previous version decodes. */
  predicate IsLegacySession(v: Value) {
    && Lacks(v, {NativeLastActivityAt, Background, OutputForceClosed, CapabilityRefusals, Placement, SpawnedBy})
    && (FieldOf(v, Runtime).Some? ==> Lacks(FieldOf(v, Runtime).value, {WorkerInstanceId, Exit, LossCause}))
    && (FieldOf(v, Warnings).Some? && FieldOf(v, Warnings).value.Array? ==>
          forall w | w in FieldOf(v, Warnings).value.items :: IsLegacyWarning(w))
  }

  predicate IsLegacyIdentity(v: Value) {
    Lacks(v, {WorkerInstanceId})
  }

  predicate AllLegacySessions(v: Value) {
    v.Array? ==> forall x | x in v.items :: IsLegacySession(x)
  }

  predicate AllLegacyIdentities(v: Value) {
    v.Array? ==> forall x | x in v.items :: IsLegacyIdentity(x)
  }

  /** A success payload the previous version decodes, method by method. */
  predicate IsLegacyResult(m: Method, v: Value) {
    && (m == SessionList ==> AllLegacySessions(v))
    && (m in {SessionInspect, SessionNew, SessionFork} ==> IsLegacySession(v))
    && (m in {SessionResume, SessionResize, SessionSetMetadata, SessionRename, SessionWait} ==>
          FieldOf(v, Session).Some? ==> IsLegacySession(FieldOf(v, Session).value))
    && (m == SessionInput ==> FieldOf(v, Runtime).Some? ==> IsLegacyIdentity(FieldOf(v, Runtime).value))
    && (m in {SessionScreen, SessionRead, SessionOutput} ==> IsLegacyIdentity(v))
    && (m == SessionRuntimeInventory ==>
          FieldOf(v, Entries).Some? ==> AllLegacyIdentities(FieldOf(v, Entries).value))
    && !m.Introduced?
  }

  /** Parameters the previous version decodes. */
  predicate IsLegacyRequest(m: Method, v: Value) {
    && (m in {SessionOutput, SessionWait} ==>
          FieldOf(v, Runtime).Some? ==> IsLegacyIdentity(FieldOf(v, Runtime).value))
    && (m == SessionReportNativeId ==> IsLegacyIdentity(v))
    && (m == SessionInput ==> FieldOf(v, Wait).Some? ==> Lacks(FieldOf(v, Wait).value, {AllowPromptAccepted}))
    && (m == SessionNew ==>
          forall key | key in {BranchSource, OnDiverged, InputAckTimeoutMs, SecretEnv, ClientRequestId} ::
            FieldOf(v, key) in {None, Some(Null)})
    && !m.Introduced?
  }

  /** An event payload the previous version decodes. */
  predicate IsLegacyEvent(name: EventName, v: Value) {
    && (name in {AgentState, SubagentState} ==>
          FieldOf(v, Runtime).Some? ==> IsLegacyIdentity(FieldOf(v, Runtime).value))
    && (name == RuntimeDiscovered ==> FieldOf(v, Entry).Some? ==> IsLegacyIdentity(FieldOf(v, Entry).value))
    && (name == NativeRecovered ==> Lacks(v, {WorkerInstanceId, PreviousWorkerInstanceId}))
    && (name == NativeRecovered || name.SessionEvent? ==>
          FieldOf(v, Session).Some? ==> IsLegacySession(FieldOf(v, Session).value))
    && !name.NewEvent?
  }

  // ------------------------------------------------------------------- proofs

  lemma RenamedIsLegacy(v: Value)
    requires RenameIn(v, ToLegacy).Ok?
    ensures IsLegacyIdentity(RenameIn(v, ToLegacy).value)
  {
  }

  lemma {:induction false} FilterKeepsExactly(items: seq<Value>, w: Value)
    ensures w in Filter(items) <==> w in items && IsLegacyWarning(w)
  {
    if items != [] {
      FilterKeepsExactly(items[1..], w);
    }
  }

  lemma SessionIsLegacy(v: Value)
    requires SessionInfo(v, ToLegacy).Ok?
    ensures IsLegacySession(SessionInfo(v, ToLegacy).value)
  {
    if v.Object? && Warnings in v.fields && v.fields[Warnings].Array? {
      var items := v.fields[Warnings].items;
      forall w | w in Filter(items)
        ensures IsLegacyWarning(w)
      {
        FilterKeepsExactly(items, w);
      }
    }
  }

  lemma {:induction false} AllAreLegacy(site: Site, items: seq<Value>)
    requires ApplyAll(site, items, ToLegacy).Ok?
    ensures forall x | x in ApplyAll(site, items, ToLegacy).value ::
              if site.Identity? || site.Identities? then IsLegacyIdentity(x) else IsLegacySession(x)
    decreases |items|
  {
    hide SessionInfo, RenameIn, IsLegacySession, IsLegacyIdentity;
    if items != [] {
      AllAreLegacy(site, items[1..]);
      if site.Identity? || site.Identities? {
        RenamedIsLegacy(items[0]);
      } else {
        SessionIsLegacy(items[0]);
      }
    }
  }

  lemma SiteIsLegacy(site: Site, v: Value)
    requires Apply(site, v, ToLegacy).Ok?
    ensures var down := Apply(site, v, ToLegacy).value;
            match site {
              case Identity => IsLegacyIdentity(down)
              case Identities => AllLegacyIdentities(down)
              case SessionObject => IsLegacySession(down)
              case SessionObjects => AllLegacySessions(down)
            }
  {
    hide SessionInfo, RenameIn, ApplyAll, IsLegacySession, IsLegacyIdentity;
    match site
    case Identity => RenamedIsLegacy(v);
    case SessionObject => SessionIsLegacy(v);
    case _ =>
      if v.Array? {
        AllAreLegacy(site, v.items);
      }
  }

  /** A member that is translated is where it was, and translated. */
  lemma MemberIsLegacy(v: Value, key: Key, site: Site)
    requires ApplyAt(v, key, site, ToLegacy).Ok?
    ensures var down := FieldOf(ApplyAt(v, key, site, ToLegacy).value, key);
            down.Some? ==> FieldOf(v, key).Some? && Apply(site, FieldOf(v, key).value, ToLegacy) == Ok(down.value)
  {
    hide Apply;
  }

  /** No downgraded result holds a member the previous version lacks. */
  lemma DowngradedResultIsLegacy(m: Method, result: Value)
    requires TranslateResult(m, result, ToLegacy).Ok?
    ensures IsLegacyResult(m, TranslateResult(m, result, ToLegacy).value)
  {
    hide SessionInfo, RenameIn, Apply, ApplyAt, IsLegacySession, IsLegacyIdentity;
    hide AllLegacySessions, AllLegacyIdentities;
    match m
    case SessionList => SiteIsLegacy(SessionObjects, result);
    case SessionInspect => SessionIsLegacy(result);
    case SessionNew => SessionIsLegacy(result);
    case SessionFork => SessionIsLegacy(result);
    case SessionResume => SessionMember(result);
    case SessionResize => SessionMember(result);
    case SessionSetMetadata => SessionMember(result);
    case SessionRename => SessionMember(result);
    case SessionWait => SessionMember(result);
    case SessionInput => IdentityMember(result, Runtime);
    case SessionScreen => RenamedIsLegacy(result);
    case SessionRead => RenamedIsLegacy(result);
    case SessionOutput => RenamedIsLegacy(result);
    case SessionRuntimeInventory =>
      MemberIsLegacy(result, Entries, Identities);
      if FieldOf(result, Entries).Some? && Apply(Identities, FieldOf(result, Entries).value, ToLegacy).Ok? {
        SiteIsLegacy(Identities, FieldOf(result, Entries).value);
      }
    case _ =>
  }

  lemma SessionMember(v: Value)
    requires ApplyAt(v, Session, SessionObject, ToLegacy).Ok?
    ensures var down := FieldOf(ApplyAt(v, Session, SessionObject, ToLegacy).value, Session);
            down.Some? ==> IsLegacySession(down.value)
  {
    hide Apply, ApplyAt, IsLegacySession;
    MemberIsLegacy(v, Session, SessionObject);
    if FieldOf(v, Session).Some? && Apply(SessionObject, FieldOf(v, Session).value, ToLegacy).Ok? {
      SiteIsLegacy(SessionObject, FieldOf(v, Session).value);
    }
  }

  lemma IdentityMember(v: Value, key: Key)
    requires ApplyAt(v, key, Identity, ToLegacy).Ok?
    ensures var down := FieldOf(ApplyAt(v, key, Identity, ToLegacy).value, key);
            down.Some? ==> IsLegacyIdentity(down.value)
  {
    hide Apply, ApplyAt, IsLegacyIdentity;
    MemberIsLegacy(v, key, Identity);
    if FieldOf(v, key).Some? && Apply(Identity, FieldOf(v, key).value, ToLegacy).Ok? {
      SiteIsLegacy(Identity, FieldOf(v, key).value);
    }
  }

  /** No downgraded request holds a member the previous version lacks. */
  lemma DowngradedRequestIsLegacy(m: Method, params: Value)
    requires TranslateRequest(m, params, ToLegacy).Ok?
    ensures IsLegacyRequest(m, TranslateRequest(m, params, ToLegacy).value)
  {
    match m
    case SessionOutput => IdentityMember(params, Runtime);
    case SessionWait => IdentityMember(params, Runtime);
    case SessionReportNativeId => RenamedIsLegacy(params);
    case _ =>
  }

  /** No downgraded event holds a member the previous version lacks, and none it never had is sent. */
  lemma DowngradedEventIsLegacy(name: EventName, payload: Value)
    requires DowngradeEvent(name, payload).Ok? && DowngradeEvent(name, payload).value.Some?
    ensures IsLegacyEvent(name, DowngradeEvent(name, payload).value.value)
  {
    hide ApplyAt, IsLegacySession, IsLegacyIdentity;
    match name
    case AgentState => IdentityMember(payload, Runtime);
    case SubagentState => IdentityMember(payload, Runtime);
    case RuntimeDiscovered => IdentityMember(payload, Entry);
    case NativeRecovered => SessionMember(payload);
    case SessionEvent(_) => SessionMember(payload);
    case _ =>
  }

  /** Of a session, its runtime and its warnings aside, only the listed members are lost. */
  lemma OnlyTheListedIsForgotten(v: Value, key: Key)
    requires key !in {NativeLastActivityAt, Background, OutputForceClosed, CapabilityRefusals, Placement, SpawnedBy,
                      Warnings, Runtime}
    ensures FieldOf(ForgetSession(v), key) == FieldOf(v, key)
  {
    hide Filter, Without;
  }

  /** Of its runtime, only how it exited and why it was lost. */
  lemma OnlyTheExitIsForgotten(v: Value, key: Key)
    requires FieldOf(v, Runtime).Some? && key !in {Exit, LossCause}
    ensures FieldOf(ForgetSession(v), Runtime).Some?
    ensures FieldOf(FieldOf(ForgetSession(v), Runtime).value, key) == FieldOf(FieldOf(v, Runtime).value, key)
  {
    hide Filter;
    var runtime := v.fields[Runtime];
    var there := Object(v.fields[Runtime := ForgetRuntime(runtime)]);
    assert FieldOf(ForgetSessionFields(there), Runtime) == Some(ForgetRuntime(runtime));
  }

  /** Of its warnings, only those of other kinds. */
  lemma OnlyNewWarningsAreForgotten(v: Value, w: Value)
    ensures var was, kept := FieldOf(v, Warnings), FieldOf(ForgetSession(v), Warnings);
            if was.Some? && was.value.Array? then
              kept.Some? && kept.value.Array? && (w in kept.value.items <==> w in was.value.items && IsLegacyWarning(w))
            else kept == was
  {
    hide Without, IsLegacyWarning;
    if v.Object? && Warnings in v.fields && v.fields[Warnings].Array? {
      FilterKeepsExactly(v.fields[Warnings].items, w);
      hide Filter;
    }
  }

  // ---------------------------------------------------------------- refusals

  /** The name the other version has for a worker instance. */
  function Taken(d: Direction): (key: Key) {
    if d == ToLegacy then RuntimeId else WorkerInstanceId
  }

  predicate SessionClashes(v: Value, d: Direction) {
    FieldOf(v, Runtime).Some? && FieldOf(FieldOf(v, Runtime).value, Taken(d)).Some?
  }

  predicate OneClashes(site: Site, v: Value, d: Direction) {
    if site.Identity? || site.Identities? then FieldOf(v, Taken(d)).Some? else SessionClashes(v, d)
  }

  predicate SiteClashes(site: Site, v: Value, d: Direction) {
    if site.Identity? || site.SessionObject? then OneClashes(site, v, d)
    else v.Array? && exists x | x in v.items :: OneClashes(site, x, d)
  }

  predicate MemberClashes(v: Value, key: Key, site: Site, d: Direction) {
    FieldOf(v, key).Some? && SiteClashes(site, FieldOf(v, key).value, d)
  }

  /** An identity of the payload already has the name it would be renamed to. */
  predicate ResultClashes(m: Method, v: Value, d: Direction) {
    || (m == SessionList && SiteClashes(SessionObjects, v, d))
    || (m in {SessionInspect, SessionNew, SessionFork} && SessionClashes(v, d))
    || (m in {SessionResume, SessionResize, SessionSetMetadata, SessionRename, SessionWait} &&
        MemberClashes(v, Session, SessionObject, d))
    || (m == SessionInput && MemberClashes(v, Runtime, Identity, d))
    || (m in {SessionScreen, SessionRead, SessionOutput} && FieldOf(v, Taken(d)).Some?)
    || (m == SessionRuntimeInventory && MemberClashes(v, Entries, Identities, d))
  }

  predicate EventClashes(name: EventName, v: Value, d: Direction) {
    || (name in {AgentState, SubagentState} && MemberClashes(v, Runtime, Identity, d))
    || (name == RuntimeDiscovered && MemberClashes(v, Entry, Identity, d))
    || ((name == NativeRecovered || name.SessionEvent?) && MemberClashes(v, Session, SessionObject, d))
    || (var previous := if d == ToLegacy then PreviousRuntimeId else PreviousWorkerInstanceId;
        name == NativeRecovered && (FieldOf(v, Taken(d)).Some? || FieldOf(v, previous).Some?))
  }

  lemma OneFailsIff(site: Site, v: Value, d: Direction)
    ensures ApplyOne(site, v, d).Err? <==> OneClashes(site, v, d)
  {
  }

  lemma {:induction false} AllFailIff(site: Site, items: seq<Value>, d: Direction)
    ensures ApplyAll(site, items, d).Err? <==> exists x | x in items :: OneClashes(site, x, d)
    decreases |items|
  {
    hide ApplyOne, OneClashes;
    if items != [] {
      OneFailsIff(site, items[0], d);
      AllFailIff(site, items[1..], d);
      assert items == [items[0]] + items[1..];
    }
  }

  lemma SiteFailsIff(site: Site, v: Value, d: Direction)
    ensures Apply(site, v, d).Err? <==> SiteClashes(site, v, d)
  {
    hide ApplyOne, OneClashes, ApplyAll;
    OneFailsIff(site, v, d);
    if v.Array? {
      AllFailIff(site, v.items, d);
    }
  }

  lemma MemberFailsIff(v: Value, key: Key, site: Site, d: Direction)
    ensures ApplyAt(v, key, site, d).Err? <==> MemberClashes(v, key, site, d)
  {
    hide Apply, SiteClashes;
    if FieldOf(v, key).Some? {
      SiteFailsIff(site, FieldOf(v, key).value, d);
    }
  }

  /** A result is refused exactly for a method the previous version lacks or an identity that has both names. */
  lemma ResultIsRefusedIff(m: Method, result: Value, d: Direction)
    ensures TranslateResult(m, result, d).Err? <==> m.Introduced? || ResultClashes(m, result, d)
  {
    hide Apply, ApplyAt, SessionInfo, RenameIn, SessionClashes, SiteClashes, MemberClashes;
    OneFailsIff(SessionObject, result, d);
    OneFailsIff(Identity, result, d);
    SiteFailsIff(SessionObjects, result, d);
    MemberFailsIff(result, Session, SessionObject, d);
    MemberFailsIff(result, Runtime, Identity, d);
    MemberFailsIff(result, Entries, Identities, d);
  }

  /** A payload without a translation site is never touched. */
  lemma OtherPayloadsAreUntouched(m: Method, name: EventName, v: Value, d: Direction)
    ensures !m.Introduced? && m !in {SessionList, SessionInspect, SessionNew, SessionFork, SessionResume, SessionResize,
                                     SessionSetMetadata, SessionRename, SessionWait, SessionInput, SessionScreen,
                                     SessionRead, SessionOutput, SessionRuntimeInventory} ==>
              TranslateResult(m, v, d) == Ok(v)
    ensures name.PlainEvent? ==> TranslateEvent(name, v, d) == Ok(v)
  {
  }

  lemma EventIsRefusedIff(name: EventName, payload: Value, d: Direction)
    ensures TranslateEvent(name, payload, d).Err? <==> EventClashes(name, payload, d)
  {
    hide Apply, SiteClashes;
    MemberFailsIff(payload, Session, SessionObject, d);
    MemberFailsIff(payload, Runtime, Identity, d);
    MemberFailsIff(payload, Entry, Identity, d);
  }
}
