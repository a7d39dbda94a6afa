/**
 The acceptance evidence (scripts/acceptance/overlay_evidence.py): collecting
 checks, combining them with the inconclusive codes into one verdict, and the
 stable placeholders of redacted addresses.
 */
module Evidence {
  import opened Wrappers
  import opened Strings

  const RUN_INCONCLUSIVE: set<string> :=
    {"checksum_mismatch", "artifact_missing", "artifact_unusable", "slots_unavailable", "provisioning_failed",
     "no_direct_path", "path_guard_violation", "interrupted"}

  const UNRESPONSIVE: string := "macos_unresponsive"
  const EXPOSURE_WINDOW: string := "exposure-window-"
  const CLEANUP: string := "cleanup-"

  /** The sub-step or leg a code voids. */
  const SUBSTEP_INCONCLUSIVE: map<string, string> :=
    map["headscale_unreachable_from_macos" := "macos.userspace",
        "macos_userspace_refused" := "macos.userspace",
        "macos_userspace_not_running" := "macos.userspace",
        UNRESPONSIVE := "macos",
        "macos_provisioning_failed" := "macos",
        "macos_homebrew_failed" := "macos",
        "macos_tailscale_pin_mismatch" := "macos"]

  datatype Status = Passed | Failed | Missing

  datatype Item = Item(leg: string, name: string, status: Status, detail: string, gating: bool, substep: Option<string>)

  // ------------------------------------------------------------------ checks

  class Checks {
    var items: seq<Item>

    constructor ()
      ensures items == []
    {
      items := [];
    }

    method Add(leg: string, name: string, passed: bool, detail: string, gating: bool, substep: Option<string>)
      modifies this
      ensures items == old(items) + [Item(leg, name, if passed then Passed else Failed, detail, gating, substep)]
    {
      items := items + [Item(leg, name, if passed then Passed else Failed, detail, gating, substep)];
    }

    method AddMissing(leg: string, name: string, step: string, gating: bool, substep: Option<string>)
      modifies this
      ensures items == old(items)
                       + [Item(leg, name, Missing, "step " + step + " was not recorded", gating, substep)]
    {
      items := items + [Item(leg, name, Missing, "step " + step + " was not recorded", gating, substep)];
    }

    /** `with_step`; `decide` gives a decision and its detail, or the error it raised. */
    method WithStep<S>(leg: string, name: string, stepName: string, step: Option<S>,
                       decide: S -> Result<(bool, string), string>, gating: bool, substep: Option<string>)
      modifies this
      ensures |items| == |old(items)| + 1 && items[..|old(items)|] == old(items)
      ensures var item := items[|old(items)|];
              && item.leg == leg && item.name == name && item.gating == gating && item.substep == substep
              && (item.status.Missing? <==> step.None?)
              && (item.status.Passed? <==> step.Some? && decide(step.value).Ok? && decide(step.value).value.0)
              && (step.None? ==> item.detail == "step " + stepName + " was not recorded")
              && (step.Some? && decide(step.value).Ok? ==> item.detail == decide(step.value).value.1)
    {
      if step.None? {
        AddMissing(leg, name, stepName, gating, substep);
        return;
      }
      var decided := decide(step.value);
      var (passed, detail) := if decided.Ok? then decided.value else (false, "unreadable output: " + decided.error);
      Add(leg, name, passed, detail, gating, substep);
    }
  }

  // ----------------------------------------------------------------- verdict

  datatype Verdict = RunInconclusive | RunFailed | RunIncomplete | RunPassed

  datatype EvidenceError = UnknownCode

  predicate IsKnown(code: string) {
    code in RUN_INCONCLUSIVE || code in SUBSTEP_INCONCLUSIVE
  }

  function RunCodes(codes: set<string>): (r: set<string>) {
    set c | c in codes && c in RUN_INCONCLUSIVE
  }

  function Voided(codes: set<string>): (r: set<string>) {
    set c | c in codes && c in SUBSTEP_INCONCLUSIVE :: SUBSTEP_INCONCLUSIVE[c]
  }

  predicate IsHidden(codes: set<string>, item: Item) {
    var voided := Voided(codes);
    if item.substep.Some? && item.substep.value in voided then true
    else if item.leg !in voided then false
    else if item.status.Failed? && StartsWith(item.name, EXPOSURE_WINDOW) then false
    else if item.status.Failed? && StartsWith(item.name, CLEANUP) && UNRESPONSIVE !in codes then false
    else true
  }

  /** The gating checks no code hides. */
  function Live(codes: set<string>, items: seq<Item>): (r: seq<Item>)
    ensures forall item :: item in r <==> item in items && item.gating && !IsHidden(codes, item)
  {
    if items == [] then []
    else
      var rest := Live(codes, items[1..]);
      if items[0].gating && !IsHidden(codes, items[0]) then [items[0]] + rest else rest
  }

  function OfStatus(items: seq<Item>, status: Status): (r: seq<Item>)
    ensures forall item :: item in r <==> item in items && item.status == status
  {
    if items == [] then []
    else
      var rest := OfStatus(items[1..], status);
      if items[0].status == status then [items[0]] + rest else rest
  }

  function Combine(codes: set<string>, items: seq<Item>): (v: Result<Verdict, EvidenceError>) {
    if exists code | code in codes :: !IsKnown(code) then Err(UnknownCode)
    else
      var live := Live(codes, items);
      var failed, missing := OfStatus(live, Failed), OfStatus(live, Missing);
      if RunCodes(codes) != {} then Ok(RunInconclusive)
      else if failed != [] then Ok(RunFailed)
      else if missing != [] then Ok(RunIncomplete)
      else if Voided(codes) != {} then Ok(RunInconclusive)
      else Ok(RunPassed)
  }

  /** A check that counts against the run. */
  predicate CountsAs(codes: set<string>, item: Item, status: Status) {
    item.gating && !IsHidden(codes, item) && item.status == status
  }

  /** Which verdict a known set of codes gives, in terms of single checks. */
  lemma VerdictIsExact(codes: set<string>, items: seq<Item>)
    requires forall code | code in codes :: IsKnown(code)
    ensures Combine(codes, items) == Ok(RunFailed) <==>
            codes !! RUN_INCONCLUSIVE && exists item | item in items :: CountsAs(codes, item, Failed)
    ensures Combine(codes, items) == Ok(RunIncomplete) <==>
            && codes !! RUN_INCONCLUSIVE
            && (forall item | item in items :: !CountsAs(codes, item, Failed))
            && (exists item | item in items :: CountsAs(codes, item, Missing))
    ensures Combine(codes, items) == Ok(RunPassed) <==>
            && codes == {}
            && forall item | item in items && item.gating :: item.status == Passed
  {
    hide IsHidden;
    var live := Live(codes, items);
    var failed, missing := OfStatus(live, Failed), OfStatus(live, Missing);
    CodesAreRunOrVoid(codes);
    NoCodeHidesNothing();
    assert failed != [] <==> exists item | item in items :: CountsAs(codes, item, Failed) by {
      if failed != [] {
        assert failed[0] in failed;
      }
    }
    assert missing != [] <==> exists item | item in items :: CountsAs(codes, item, Missing) by {
      if missing != [] {
        assert missing[0] in missing;
      }
    }
  }

  lemma CodesAreRunOrVoid(codes: set<string>)
    requires forall code | code in codes :: IsKnown(code)
    ensures RunCodes(codes) == {} <==> codes !! RUN_INCONCLUSIVE
    ensures RunCodes(codes) == {} && Voided(codes) == {} <==> codes == {}
  {
    if codes != {} && RunCodes(codes) == {} {
      var code :| code in codes;
      assert code !in RunCodes(codes);
      assert SUBSTEP_INCONCLUSIVE[code] in Voided(codes);
    }
    if RunCodes(codes) != {} {
      var code :| code in RunCodes(codes);
      assert code in codes * RUN_INCONCLUSIVE;
    }
    assert forall code | code in codes && code in RUN_INCONCLUSIVE :: code in RunCodes(codes);
  }

  lemma NoCodeHidesNothing()
    ensures forall item :: !IsHidden({}, item)
  {
  }

  /** A failed exposure-window check is hidden only by a code for its own sub-step. */
  lemma ExposureIsHiddenIff(codes: set<string>, item: Item)
    requires item.status.Failed? && StartsWith(item.name, EXPOSURE_WINDOW)
    ensures IsHidden(codes, item) <==> item.substep.Some? && item.substep.value in Voided(codes)
  {
  }

  /** The exposure-window checks the script records name no sub-step, so no set of codes hides a failed one. */
  lemma RecordedExposureIsNeverHidden(codes: set<string>, item: Item)
    requires item.status.Failed? && StartsWith(item.name, EXPOSURE_WINDOW) && item.substep.None?
    ensures !IsHidden(codes, item)
  {
  }

  /** One that named a sub-step would be hidden with it, and the run would not fail. */
  lemma ExposureWithASubstepCanBeHidden()
    ensures var item := Item("macos", "exposure-window-closed", Failed, "", true, Some("macos.userspace"));
            && StartsWith(item.name, EXPOSURE_WINDOW)
            && Combine({"macos_userspace_refused"}, [item]) == Ok(RunInconclusive)
  {
    var code := "macos_userspace_refused";
    var item := Item("macos", "exposure-window-closed", Failed, "", true, Some("macos.userspace"));
    assert "exposure-window-closed" == EXPOSURE_WINDOW + "closed";
    assert SUBSTEP_INCONCLUSIVE[code] == "macos.userspace";
    assert "macos.userspace" in Voided({code});
    assert code !in RUN_INCONCLUSIVE;
    CodesAreRunOrVoid({code});
    assert Live({code}, [item]) == [] by {
      assert [item][1..] == [];
    }
  }

  /** A failed cleanup check is hidden only by its own sub-step, or by its leg when the session stopped answering. */
  lemma CleanupIsHiddenIff(codes: set<string>, item: Item)
    requires item.status.Failed? && StartsWith(item.name, CLEANUP)
    ensures IsHidden(codes, item) <==>
            || (item.substep.Some? && item.substep.value in Voided(codes))
            || (item.leg in Voided(codes) && UNRESPONSIVE in codes)
  {
    assert EXPOSURE_WINDOW[0] != CLEANUP[0];
  }

  /** Any other check is hidden by its own sub-step or by its leg. */
  lemma OrdinaryIsHiddenIff(codes: set<string>, item: Item)
    requires item.status.Failed? ==> !StartsWith(item.name, EXPOSURE_WINDOW) && !StartsWith(item.name, CLEANUP)
    ensures IsHidden(codes, item) <==>
            (item.substep.Some? && item.substep.value in Voided(codes)) || item.leg in Voided(codes)
  {
  }

  /** Harm to the owner's machines is reported: such a check fails the run unless a run-wide code ends it. */
  lemma ExposureFailsTheRun(codes: set<string>, items: seq<Item>, item: Item)
    requires forall code | code in codes :: IsKnown(code)
    requires item in items && item.gating && item.status.Failed? && StartsWith(item.name, EXPOSURE_WINDOW)
    requires item.substep.None? || item.substep.value !in Voided(codes)
    ensures Combine(codes, items) == Ok(if codes !! RUN_INCONCLUSIVE then RunFailed else RunInconclusive)
  {
    ExposureIsHiddenIff(codes, item);
    assert CountsAs(codes, item, Failed);
    VerdictIsExact(codes, items);
    CodesAreRunOrVoid(codes);
  }

  /** One more code hides at least as much. */
  lemma HiddenStaysHidden(codes: set<string>, code: string, item: Item)
    requires IsHidden(codes, item)
    ensures IsHidden(codes + {code}, item)
  {
    assert forall c | c in codes && c in SUBSTEP_INCONCLUSIVE :: SUBSTEP_INCONCLUSIVE[c] in Voided(codes + {code});
    assert Voided(codes) <= Voided(codes + {code});
  }

  /** Recording a code never fails a run and never makes one pass. */
  lemma CodesOnlyWithholdAVerdict(codes: set<string>, code: string, items: seq<Item>)
    requires forall c | c in codes + {code} :: IsKnown(c)
    ensures Combine(codes + {code}, items) != Ok(RunPassed)
    ensures Combine(codes + {code}, items) == Ok(RunFailed) ==> Combine(codes, items) == Ok(RunFailed)
  {
    hide IsHidden, Combine;
    VerdictIsExact(codes + {code}, items);
    assert forall c | c in codes :: IsKnown(c) by {
      assert forall c | c in codes :: c in codes + {code};
    }
    VerdictIsExact(codes, items);
    assert code in codes + {code};
    if Combine(codes + {code}, items) == Ok(RunFailed) {
      var item :| item in items && CountsAs(codes + {code}, item, Failed);
      if IsHidden(codes, item) {
        HiddenStaysHidden(codes, code, item);
      }
      assert CountsAs(codes, item, Failed);
    }
  }

  // ------------------------------------------------------------- placeholders

  function Placeholder(k: nat): (s: string) {
    "<netbird-ip-" + Decimal(k) + ">"
  }

  function WithAddress(placeholders: map<string, string>, address: string): (m: map<string, string>) {
    if address in placeholders then placeholders
    else placeholders[address := Placeholder(|placeholders| + 1)]
  }

  class Redactor {
    var placeholders: map<string, string>

    constructor ()
      ensures placeholders == map[]
    {
      placeholders := map[];
    }

    method PlaceholderOf(address: string) returns (p: string)
      modifies this
      ensures placeholders == WithAddress(old(placeholders), address)
      ensures address in placeholders && p == placeholders[address]
    {
      if address !in placeholders {
        placeholders := placeholders[address := Placeholder(|placeholders| + 1)];
      }
      p := placeholders[address];
    }
  }

  /** The table after redacting these addresses, in order. */
  function After(addresses: seq<string>): (m: map<string, string>)
    ensures forall a :: a in m <==> a in addresses
  {
    if addresses == [] then map[]
    else
      var n := |addresses| - 1;
      assert addresses == addresses[..n] + [addresses[n]];
      WithAddress(After(addresses[..n]), addresses[n])
  }

  /** Numbered up to the table's size, no number twice. */
  ghost predicate IsNumbered(m: map<string, string>) {
    && (forall a | a in m :: exists k :: 1 <= k <= |m| && m[a] == Placeholder(k))
    && (forall a, b | a in m && b in m :: m[a] == m[b] ==> a == b)
  }

  lemma PlaceholderInjective(j: nat, k: nat)
    requires Placeholder(j) == Placeholder(k)
    ensures j == k
  {
    var open := "<netbird-ip-";
    assert Placeholder(j)[|open|..|Placeholder(j)| - 1] == Decimal(j);
    assert Placeholder(k)[|open|..|Placeholder(k)| - 1] == Decimal(k);
    DecimalInjective(j, k);
  }

  lemma AddressKeepsNumbering(m: map<string, string>, address: string)
    requires IsNumbered(m)
    ensures IsNumbered(WithAddress(m, address))
  {
    hide Placeholder;
    if address !in m {
      var fresher := Placeholder(|m| + 1);
      var after := m[address := fresher];
      assert |after| == |m| + 1;
      forall a | a in m
        ensures m[a] != fresher
      {
        var k :| 1 <= k <= |m| && m[a] == Placeholder(k);
        if m[a] == fresher {
          PlaceholderInjective(k, |m| + 1);
        }
      }
    }
  }

  lemma {:induction false} RunsAreNumbered(addresses: seq<string>)
    ensures IsNumbered(After(addresses))
    decreases |addresses|
  {
    if addresses != [] {
      RunsAreNumbered(addresses[..|addresses| - 1]);
      AddressKeepsNumbering(After(addresses[..|addresses| - 1]), addresses[|addresses| - 1]);
    }
  }

  lemma OneMoreKeeps(addresses: seq<string>, address: string)
    requires addresses != [] && address in After(addresses[..|addresses| - 1])
    ensures address in After(addresses)
    ensures After(addresses)[address] == After(addresses[..|addresses| - 1])[address]
  {
    hide Placeholder;
  }

  /** Later addresses never change an earlier placeholder. */
  lemma {:induction false} PlaceholdersAreStable(addresses: seq<string>, n: nat, address: string)
    requires n <= |addresses| && address in After(addresses[..n])
    ensures address in After(addresses) && After(addresses)[address] == After(addresses[..n])[address]
    decreases |addresses|
  {
    hide After;
    if n < |addresses| {
      var last := |addresses| - 1;
      assert addresses[..last][..n] == addresses[..n];
      PlaceholdersAreStable(addresses[..last], n, address);
      OneMoreKeeps(addresses, address);
    } else {
      assert addresses[..n] == addresses;
    }
  }

  /** Over any run of calls, two calls get the same placeholder exactly when they ask for the same address. */
  lemma SamePlaceholderIffSameAddress(addresses: seq<string>, i: nat, j: nat)
    requires i < |addresses| && j < |addresses|
    ensures addresses[i] in After(addresses[..i + 1]) && addresses[j] in After(addresses[..j + 1])
    ensures After(addresses[..i + 1])[addresses[i]] == After(addresses[..j + 1])[addresses[j]] <==>
            addresses[i] == addresses[j]
  {
    hide After, Placeholder;
    assert addresses[..i + 1][i] == addresses[i];
    assert addresses[..j + 1][j] == addresses[j];
    PlaceholdersAreStable(addresses, i + 1, addresses[i]);
    PlaceholdersAreStable(addresses, j + 1, addresses[j]);
    RunsAreNumbered(addresses);
  }
}
