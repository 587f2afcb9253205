/** Release preparation: rewriting every version of one component, one write after another, so that a crash shows. */
module PrepareRelease {
  import opened Texts
  import opened Wrappers

  const DEVELOPMENT_VERSION := "0.0.0-dev"

  datatype Component = Cli | Server

  /** The places that carry a version. */
  datatype Slot =
    | CliManifest | CliLock
    | ProviderManifest | ServerManifest | ServerDependency | ProviderLock | ServerLock

  /** The version read from a place, and whether it is spelled the one way the replacement recognises. */
  datatype Entry = Entry(version: string, canonical: bool)

  type Entries = map<Slot, Entry>

  datatype ReleaseError =
    | UnknownComponent | InvalidVersion | Unreadable(slot: Slot) | Refused | NoMatch(slot: Slot) | NotUniform

  /** In the order in which they are observed, and written. */
  function Slots(component: Component): seq<Slot> {
    match component
    case Cli => [CliManifest, CliLock]
    case Server => [ProviderManifest, ServerManifest, ServerDependency, ProviderLock, ServerLock]
  }

  function Other(component: Component): Component {
    match component case Cli => Server case Server => Cli
  }

  // ---- The request -------------------------------------------------------------------------------------

  function ParseComponent(name: string): Option<Component> {
    if name == "cli" then Some(Cli) else if name == "server" then Some(Server) else None
  }

  predicate IsLetterOrHyphen(c: char) {
    'a' <= c <= 'z' || 'A' <= c <= 'Z' || c == '-'
  }

  predicate IsNumericIdentifier(text: string) {
    text != "" && (text[0] == '0' ==> text == "0") && forall i :: 0 <= i < |text| ==> IsDigit(text[i])
  }

  predicate IsPrereleaseIdentifier(text: string) {
    || IsNumericIdentifier(text)
    || (&& (forall i :: 0 <= i < |text| ==> IsDigit(text[i]) || IsLetterOrHyphen(text[i]))
        && (exists i :: 0 <= i < |text| && IsLetterOrHyphen(text[i])))
  }

  predicate IsSemanticVersion(text: string) {
    var n := Until(text, '-');
    var core := Split(text[..n], '.');
    && |core| == 3 && (forall i :: 0 <= i < 3 ==> IsNumericIdentifier(core[i]))
    && (n < |text| ==> forall field :: field in Split(text[n + 1..], '.') ==> IsPrereleaseIdentifier(field))
  }

  predicate IsReleaseVersion(version: string) {
    version != DEVELOPMENT_VERSION && IsSemanticVersion(version)
  }

  // ---- States of the working copy ------------------------------------------------------------------------

  predicate Uniformly(entries: Entries, component: Component, version: string) {
    forall slot :: slot in Slots(component) ==> slot in entries && entries[slot].version == version
  }

  predicate Readable(entries: Entries, component: Component) {
    forall slot :: slot in Slots(component) ==> slot in entries
  }

  predicate IsDevelopment(entries: Entries) {
    Uniformly(entries, Cli, DEVELOPMENT_VERSION) && Uniformly(entries, Server, DEVELOPMENT_VERSION)
  }

  predicate IsPrepared(entries: Entries, component: Component, version: string) {
    Uniformly(entries, component, version) && Uniformly(entries, Other(component), DEVELOPMENT_VERSION)
  }

  predicate Replaceable(entries: Entries, slot: Slot) {
    slot in entries && entries[slot] == Entry(DEVELOPMENT_VERSION, true)
  }

  /** The working copy once these places have been rewritten. */
  function Written(entries: Entries, slots: seq<Slot>, version: string): Entries {
    if slots == [] then entries
    else Written(entries, slots[..|slots| - 1], version)[slots[|slots| - 1] := Entry(version, true)]
  }

  lemma {:induction false} WrittenAt(entries: Entries, slots: seq<Slot>, version: string, slot: Slot)
    ensures var after := Written(entries, slots, version);
            && (slot in slots ==> slot in after && after[slot] == Entry(version, true))
            && (slot !in slots ==>
                (slot in after <==> slot in entries) && (slot in after ==> after[slot] == entries[slot]))
  {
    if slots != [] {
      var n := |slots| - 1;
      assert slots == slots[..n] + [slots[n]];
      WrittenAt(entries, slots[..n], version, slot);
    }
  }

  /** How many places, in order, the replacement finds as it expects them. */
  function Writable(entries: Entries, slots: seq<Slot>): (n: nat)
    ensures n <= |slots| && forall i :: 0 <= i < n ==> Replaceable(entries, slots[i])
    ensures n < |slots| ==> !Replaceable(entries, slots[n])
  {
    if slots == [] || !Replaceable(entries, slots[0]) then 0 else 1 + Writable(entries, slots[1..])
  }

  datatype Outcome = Outcome(entries: Entries, result: Result<(), ReleaseError>)

  /** Rewriting goes on until a place is not as expected. */
  function Rewritten(entries: Entries, slots: seq<Slot>, version: string): Outcome {
    var n := Writable(entries, slots);
    Outcome(Written(entries, slots[..n], version), if n == |slots| then Ok(()) else Err(NoMatch(slots[n])))
  }

  function FirstUnreadable(entries: Entries, slots: seq<Slot>): (missing: Option<Slot>)
    ensures missing.None? <==> forall slot :: slot in slots ==> slot in entries
    ensures missing.Some? ==> missing.value in slots && missing.value !in entries
  {
    if slots == [] then None
    else if slots[0] !in entries then Some(slots[0])
    else FirstUnreadable(entries, slots[1..])
  }

  /** Whether the working copy is prepared already; if not, it has to be development throughout. */
  function Examined(entries: Entries, component: Component, version: string): Result<bool, ReleaseError> {
    var missing := FirstUnreadable(entries, Slots(component));
    var unrelated := FirstUnreadable(entries, Slots(Other(component)));
    if missing.Some? then Err(Unreadable(missing.value))
    else if unrelated.Some? then Err(Unreadable(unrelated.value))
    else if IsPrepared(entries, component, version) then Ok(true)
    else if IsDevelopment(entries) then Ok(false)
    else Err(Refused)
  }

  /** What preparing a release of a component comes to. */
  function PreparationOf(entries: Entries, component: Component, version: string): Outcome {
    match Examined(entries, component, version)
    case Err(error) => Outcome(entries, Err(error))
    case Ok(true) => Outcome(entries, Ok(()))
    case Ok(false) => Rewritten(entries, Slots(component), version)
  }

  /** The same, for a request as it arrives. */
  function Preparation(entries: Entries, name: string, version: string): Outcome {
    if ParseComponent(name).None? then Outcome(entries, Err(UnknownComponent))
    else if !IsReleaseVersion(version) then Outcome(entries, Err(InvalidVersion))
    else PreparationOf(entries, ParseComponent(name).value, version)
  }

  predicate AllEqual(values: seq<string>, expected: string) {
    forall i :: 0 <= i < |values| ==> values[i] == expected
  }

  lemma SameValues(entries: Entries, component: Component, values: seq<string>)
    requires Readable(entries, component) && |values| == |Slots(component)|
    requires forall i :: 0 <= i < |values| ==> values[i] == entries[Slots(component)[i]].version
    ensures forall expected :: AllEqual(values, expected) <==> Uniformly(entries, component, expected)
  {
  }

  lemma AllEqualTogether(a: seq<string>, b: seq<string>, expected: string)
    ensures AllEqual(a + b, expected) <==> AllEqual(a, expected) && AllEqual(b, expected)
  {
    assert forall i :: 0 <= i < |a| ==> (a + b)[i] == a[i];
    assert forall i :: 0 <= i < |b| ==> (a + b)[|a| + i] == b[i];
  }

  /** The states recorded since then have one more place written each, in order. */
  ghost predicate PassesThrough(
    entries: Entries, slots: seq<Slot>, version: string, before: seq<Entries>, after: seq<Entries>)
  {
    && before <= after && |after| - |before| <= |slots|
    && forall i :: |before| <= i < |after| ==> after[i] == Written(entries, slots[..i - |before| + 1], version)
  }

  // ---- The script ----------------------------------------------------------------------------------------

  class WorkingCopy {
    var entries: Entries
    ghost var states: seq<Entries>

    constructor (initial: Entries)
      ensures entries == initial && states == [initial]
    {
      entries, states := initial, [initial];
    }

    method ReplaceOnce(slot: Slot, version: string) returns (result: Result<(), ReleaseError>)
      modifies this
      ensures Replaceable(old(entries), slot) ==>
                && result == Ok(()) && entries == old(entries)[slot := Entry(version, true)]
                && states == old(states) + [entries]
      ensures !Replaceable(old(entries), slot) ==>
                result == Err(NoMatch(slot)) && entries == old(entries) && states == old(states)
    {
      if slot !in entries || entries[slot] != Entry(DEVELOPMENT_VERSION, true) {
        return Err(NoMatch(slot));
      }
      entries := entries[slot := Entry(version, true)];
      states := states + [entries];
      return Ok(());
    }

    method ObservedVersions(component: Component) returns (result: Result<seq<string>, ReleaseError>)
      ensures match FirstUnreadable(entries, Slots(component))
              case Some(slot) => result == Err(Unreadable(slot))
              case None =>
                && result.Ok? && |result.value| == |Slots(component)|
                && forall i :: 0 <= i < |result.value| ==> result.value[i] == entries[Slots(component)[i]].version
    {
      var slots := Slots(component);
      var values: seq<string> := [];
      for i := 0 to |slots|
        invariant |values| == i
        invariant FirstUnreadable(entries, slots) == FirstUnreadable(entries, slots[i..])
        invariant forall j :: 0 <= j < i ==> slots[j] in entries && values[j] == entries[slots[j]].version
      {
        if slots[i] !in entries {
          return Err(Unreadable(slots[i]));
        }
        values := values + [entries[slots[i]].version];
      }
      return Ok(values);
    }

    /** Every state on the way has a number of the places written, in order. */
    method Materialize(slots: seq<Slot>, version: string) returns (result: Result<(), ReleaseError>)
      requires forall i, j :: 0 <= i < j < |slots| ==> slots[i] != slots[j]
      modifies this
      ensures Outcome(entries, result) == Rewritten(old(entries), slots, version)
      ensures |states| == |old(states)| + Writable(old(entries), slots)
      ensures PassesThrough(old(entries), slots, version, old(states), states)
    {
      ghost var base, n := |states|, Writable(entries, slots);
      for i := 0 to |slots|
        invariant i <= n && entries == Written(old(entries), slots[..i], version)
        invariant |states| == base + i && old(states) <= states
        invariant forall j :: base <= j < |states| ==>
                    states[j] == Written(old(entries), slots[..j - base + 1], version)
      {
        assert slots[..i + 1][..i] == slots[..i];
        WrittenAt(old(entries), slots[..i], version, slots[i]);
        result := ReplaceOnce(slots[i], version);
        if result.Err? {
          return;
        }
      }
      assert slots[..|slots|] == slots;
      return Ok(());
    }

    method ValidateComponentState(component: Component, expected: string) returns (result: Result<(), ReleaseError>)
      ensures result == match FirstUnreadable(entries, Slots(component))
                        case Some(slot) => Err(Unreadable(slot))
                        case None => if Uniformly(entries, component, expected) then Ok(()) else Err(NotUniform)
    {
      var observed := ObservedVersions(component);
      if observed.Err? {
        return Err(observed.error);
      }
      var values := observed.value;
      SameValues(entries, component, values);
      return if AllEqual(values, expected) then Ok(()) else Err(NotUniform);
    }

    method MaterializeAndValidate(component: Component, version: string) returns (result: Result<(), ReleaseError>)
      requires Uniformly(entries, Other(component), DEVELOPMENT_VERSION)
      modifies this
      ensures Outcome(entries, result) == Rewritten(old(entries), Slots(component), version)
      ensures |states| == |old(states)| + Writable(old(entries), Slots(component))
      ensures PassesThrough(old(entries), Slots(component), version, old(states), states)
    {
      result := Materialize(Slots(component), version);
      if result.Ok? {
        assert Slots(component)[..|Slots(component)|] == Slots(component);
        RewritingIsUniform(old(entries), component, version);
        result := ValidateComponentState(component, version);
        if result.Ok? {
          result := ValidateComponentState(Other(component), DEVELOPMENT_VERSION);
        }
      }
    }

    method Examine(component: Component, version: string) returns (prepared: Result<bool, ReleaseError>)
      ensures prepared == Examined(entries, component, version)
    {
      var selected := ObservedVersions(component);
      if selected.Err? {
        return Err(selected.error);
      }
      var unrelated := ObservedVersions(Other(component));
      if unrelated.Err? {
        return Err(unrelated.error);
      }
      SameValues(entries, component, selected.value);
      SameValues(entries, Other(component), unrelated.value);
      if AllEqual(selected.value, version) && AllEqual(unrelated.value, DEVELOPMENT_VERSION) {
        return Ok(true);
      }
      AllEqualTogether(selected.value, unrelated.value, DEVELOPMENT_VERSION);
      return if AllEqual(selected.value + unrelated.value, DEVELOPMENT_VERSION) then Ok(false) else Err(Refused);
    }

    method PrepareComponent(component: Component, version: string) returns (result: Result<(), ReleaseError>)
      modifies this
      ensures Outcome(entries, result) == PreparationOf(old(entries), component, version)
      ensures |states| > |old(states)| ==> IsDevelopment(old(entries))
      ensures PassesThrough(old(entries), Slots(component), version, old(states), states)
    {
      var prepared := Examine(component, version);
      if prepared.Err? {
        return Err(prepared.error);
      }
      if prepared.value {
        return Ok(());
      }
      result := MaterializeAndValidate(component, version);
    }

    method Prepare(name: string, version: string) returns (result: Result<(), ReleaseError>)
      modifies this
      ensures Outcome(entries, result) == Preparation(old(entries), name, version)
      ensures |states| > |old(states)| ==>
                ParseComponent(name).Some? && IsReleaseVersion(version) && IsDevelopment(old(entries))
      ensures ParseComponent(name).Some? ==>
                PassesThrough(old(entries), Slots(ParseComponent(name).value), version, old(states), states)
      ensures ParseComponent(name).None? ==> states == old(states)
    {
      var component := ParseComponent(name);
      if component.None? {
        return Err(UnknownComponent);
      }
      if !IsReleaseVersion(version) {
        return Err(InvalidVersion);
      }
      result := PrepareComponent(component.value, version);
    }
  }

  // ---- Crashes and repetition ----------------------------------------------------------------------------

  lemma SlotsArePartitioned(slot: Slot)
    ensures slot in Slots(Cli) <==> slot !in Slots(Server)
  {
  }

  /** The checks after the rewriting never fail. */
  lemma RewritingIsUniform(entries: Entries, component: Component, version: string)
    requires Uniformly(entries, Other(component), DEVELOPMENT_VERSION)
    ensures IsPrepared(Written(entries, Slots(component), version), component, version)
  {
    var done := Written(entries, Slots(component), version);
    forall slot | slot in Slots(component)
      ensures slot in done && done[slot].version == version
    {
      WrittenAt(entries, Slots(component), version, slot);
    }
    forall slot | slot in Slots(Other(component))
      ensures slot in done && done[slot].version == DEVELOPMENT_VERSION
    {
      SlotsArePartitioned(slot);
      WrittenAt(entries, Slots(component), version, slot);
    }
  }

  lemma MixedComponentIsRefused(
    left: Entries, component: Component, a: Slot, b: Slot, again: Component, request: string)
    requires Readable(left, Cli) && Readable(left, Server) && a in Slots(component) && b in Slots(component)
    requires left[a].version != DEVELOPMENT_VERSION && left[b].version == DEVELOPMENT_VERSION
    requires request != DEVELOPMENT_VERSION
    ensures PreparationOf(left, again, request) == Outcome(left, Err(Refused))
  {
    assert !Uniformly(left, component, DEVELOPMENT_VERSION) && !Uniformly(left, component, request);
    assert !IsPrepared(left, again, request) && !IsDevelopment(left);
    assert Readable(left, again) && Readable(left, Other(again));
  }

  /** A working copy abandoned between the first and the last write is refused by every later run. */
  lemma AbandonedPreparationIsRefused(
    entries: Entries, component: Component, version: string, k: nat, again: Component, request: string)
    requires IsDevelopment(entries) && version != DEVELOPMENT_VERSION && request != DEVELOPMENT_VERSION
    requires 0 < k < |Slots(component)|
    ensures var left := Written(entries, Slots(component)[..k], version);
            PreparationOf(left, again, request) == Outcome(left, Err(Refused))
  {
    var slots := Slots(component);
    var first, last := slots[0], slots[|slots| - 1];
    var left := Written(entries, slots[..k], version);
    forall slot | slot in Slots(Cli) || slot in Slots(Server)
      ensures slot in left
    {
      WrittenAt(entries, slots[..k], version, slot);
    }
    assert first == slots[..k][0] && last !in slots[..k];
    WrittenAt(entries, slots[..k], version, first);
    WrittenAt(entries, slots[..k], version, last);
    MixedComponentIsRefused(left, component, first, last, again, request);
  }

  lemma PreparedIsRecognised(done: Entries, component: Component, version: string, again: Component, request: string)
    requires IsPrepared(done, component, version) && version != DEVELOPMENT_VERSION && request != DEVELOPMENT_VERSION
    ensures PreparationOf(done, again, request)
         == Outcome(done, if again == component && request == version then Ok(()) else Err(Refused))
  {
  }

  /** Once every write has happened, the same request succeeds and any other is refused, both without a change. */
  lemma FinishedPreparationIsRecognised(
    entries: Entries, component: Component, version: string, again: Component, request: string)
    requires IsDevelopment(entries) && version != DEVELOPMENT_VERSION && request != DEVELOPMENT_VERSION
    ensures PreparationOf(Written(entries, Slots(component), version), again, request)
         == Outcome(Written(entries, Slots(component), version),
                    if again == component && request == version then Ok(()) else Err(Refused))
  {
    RewritingIsUniform(entries, component, version);
    PreparedIsRecognised(Written(entries, Slots(component), version), component, version, again, request);
  }

  /** Repeating a request after a crash is refused exactly when some, but not all, of its writes had happened. */
  lemma CrashShowsExactlyWhenPartial(entries: Entries, name: string, version: string, k: nat)
    requires IsDevelopment(entries) && IsReleaseVersion(version) && ParseComponent(name).Some?
    requires k <= |Slots(ParseComponent(name).value)|
    ensures var left := Written(entries, Slots(ParseComponent(name).value)[..k], version);
            Preparation(left, name, version).result == Err(Refused) <==> 0 < k < |Slots(ParseComponent(name).value)|
  {
    var component := ParseComponent(name).value;
    var slots := Slots(component);
    if 0 < k < |slots| {
      AbandonedPreparationIsRefused(entries, component, version, k, component, version);
    } else if k == |slots| {
      assert slots[..k] == slots;
      FinishedPreparationIsRecognised(entries, component, version, component, version);
    } else {
      assert Written(entries, slots[..0], version) == entries;
    }
  }

  /**
   * Preparing succeeds exactly when the working copy either is prepared already or is all development with
   * every place of the component spelled as expected. It then is prepared, and stays so when repeated.
   */
  lemma SuccessExactlyWhen(entries: Entries, component: Component, version: string)
    ensures var outcome := PreparationOf(entries, component, version);
            && (outcome.result.Ok? <==>
                || IsPrepared(entries, component, version)
                || (IsDevelopment(entries) && forall slot :: slot in Slots(component) ==> Replaceable(entries, slot)))
            && (outcome.result.Ok? ==>
                && IsPrepared(outcome.entries, component, version)
                && PreparationOf(outcome.entries, component, version) == Outcome(outcome.entries, Ok(())))
  {
    var slots := Slots(component);
    if Examined(entries, component, version) == Ok(false) {
      var n := Writable(entries, slots);
      if n == |slots| {
        assert slots[..n] == slots;
        RewritingIsUniform(entries, component, version);
        var done := Written(entries, slots, version);
        assert IsPrepared(done, component, version) && Examined(done, component, version) == Ok(true);
      } else {
        assert slots[n] in slots && !Replaceable(entries, slots[n]);
      }
    }
  }

  lemma DevelopmentIsNotPrepared(entries: Entries, component: Component, version: string)
    requires IsDevelopment(entries) && version != DEVELOPMENT_VERSION
    ensures Examined(entries, component, version) == Ok(false)
  {
    assert Slots(component)[0] in Slots(component);
    assert !Uniformly(entries, component, version);
  }

  lemma WritingShows(entries: Entries, slots: seq<Slot>, version: string)
    requires slots != [] && Replaceable(entries, slots[0]) && version != DEVELOPMENT_VERSION
    ensures Written(entries, slots, version) != entries
  {
    WrittenAt(entries, slots, version, slots[0]);
  }

  /**
   * A run that fails leaves the working copy changed exactly when everything was development and the first
   * place of the component was spelled as expected; that shows in every later run.
   */
  lemma FailedRewritingShows(
    entries: Entries, component: Component, version: string, again: Component, request: string)
    requires version != DEVELOPMENT_VERSION && request != DEVELOPMENT_VERSION
    requires PreparationOf(entries, component, version).result.Err?
    ensures var left := PreparationOf(entries, component, version).entries;
            && (left != entries <==> IsDevelopment(entries) && Replaceable(entries, Slots(component)[0]))
            && (left != entries ==> PreparationOf(left, again, request) == Outcome(left, Err(Refused)))
  {
    if IsDevelopment(entries) {
      DevelopmentIsNotPrepared(entries, component, version);
      var slots := Slots(component);
      var n := Writable(entries, slots);
      if n == 0 {
        assert Written(entries, slots[..0], version) == entries;
      } else {
        assert 0 < n < |slots|;
        AbandonedPreparationIsRefused(entries, component, version, n, again, request);
        WritingShows(entries, slots[..n], version);
      }
    }
  }

  // A development copy whose lock file spells the version of the client in a way the replacement misses.

  const OTHERWISE_SPELLED: Entries :=
    map[CliManifest := Entry(DEVELOPMENT_VERSION, true), CliLock := Entry(DEVELOPMENT_VERSION, false),
        ProviderManifest := Entry(DEVELOPMENT_VERSION, true), ServerManifest := Entry(DEVELOPMENT_VERSION, true),
        ServerDependency := Entry(DEVELOPMENT_VERSION, true), ProviderLock := Entry(DEVELOPMENT_VERSION, true),
        ServerLock := Entry(DEVELOPMENT_VERSION, true)]

  /** Every release of the client fails there half-written, and leaves its version in the manifest alone. */
  lemma ReleaseFailsHalfWritten(version: string)
    requires IsReleaseVersion(version)
    ensures Preparation(OTHERWISE_SPELLED, "cli", version)
         == Outcome(OTHERWISE_SPELLED[CliManifest := Entry(version, true)], Err(NoMatch(CliLock)))
    ensures OTHERWISE_SPELLED[CliManifest := Entry(version, true)] != OTHERWISE_SPELLED
  {
    var slots := Slots(Cli);
    assert ParseComponent("cli") == Some(Cli);
    assert Writable(OTHERWISE_SPELLED, slots) == 1;
    assert slots[..1] == [CliManifest] && slots[..1][..0] == [];
    assert Written(OTHERWISE_SPELLED, slots[..1], version)
        == OTHERWISE_SPELLED[CliManifest := Entry(version, true)];
    FailedOnDevelopment(version);
  }

  lemma OtherwiseSpelledIsDevelopment()
    ensures IsDevelopment(OTHERWISE_SPELLED)
  {
    forall slot: Slot
      ensures slot in OTHERWISE_SPELLED && OTHERWISE_SPELLED[slot].version == DEVELOPMENT_VERSION
    {
      match slot {
        case CliManifest | CliLock | ProviderManifest | ServerManifest | ServerDependency | ProviderLock | ServerLock =>
      }
    }
  }

  lemma FailedOnDevelopment(version: string)
    requires version != DEVELOPMENT_VERSION
    ensures PreparationOf(OTHERWISE_SPELLED, Cli, version) == Rewritten(OTHERWISE_SPELLED, Slots(Cli), version)
  {
    OtherwiseSpelledIsDevelopment();
    DevelopmentIsNotPrepared(OTHERWISE_SPELLED, Cli, version);
  }
}
