/** Which requests the release script accepts, and exactly how a run on any working copy ends. */
module PrepareRules {
  import opened PrepareRelease
  import opened Texts
  import opened Wrappers

  // ---- Versions ------------------------------------------------------------------------------------------

  /** A pre-release field as section 9 of Semantic Versioning 2.0.0 words it. */
  predicate IsField(text: string) {
    && text != ""
    && (forall i :: 0 <= i < |text| ==>
          'a' <= text[i] <= 'z' || 'A' <= text[i] <= 'Z' || '0' <= text[i] <= '9' || text[i] == '-')
    && (AllDigits(text) ==> text == "0" || text[0] != '0')
  }

  lemma FieldsExactlyWhen(text: string)
    ensures IsPrereleaseIdentifier(text) <==> IsField(text)
    ensures IsPrereleaseIdentifier(text) ==> '.' !in text
  {
  }

  /** A number of a core is a printed number. */
  lemma NumbersExactlyWhen(text: string)
    ensures IsNumericIdentifier(text) <==> exists value :: text == Show(value)
    ensures IsNumericIdentifier(text) ==> '.' !in text && '-' !in text
  {
    if IsNumericIdentifier(text) {
      CanonicalNumberIsShown(text);
    }
    if exists value :: text == Show(value) {
      var value :| text == Show(value);
      PrintedNumberIsNumeric(value);
    }
  }

  lemma PrintedNumberIsNumeric(value: nat)
    ensures IsNumericIdentifier(Show(value))
  {
    ShownNumberIsCanonical(value);
  }

  function PrintedVersion(major: nat, minor: nat, patch: nat, fields: seq<string>): string {
    WithFields(Dotted(Show(major), Show(minor), Show(patch)), fields)
  }

  function Dotted(first: string, second: string, third: string): string {
    first + ("." + (second + ("." + third)))
  }

  function WithFields(core: string, fields: seq<string>): string {
    if fields == [] then core else core + ("-" + Join(fields, '.'))
  }

  lemma DottedIsJoined(first: string, second: string, third: string)
    ensures Dotted(first, second, third) == Join([first, second, third], '.')
  {
    assert [first, second, third][1..] == [second, third] && [second, third][1..] == [third];
    assert Join([second, third], '.') == second + ("." + third);
  }

  lemma DottedSplits(first: string, second: string, third: string)
    requires IsNumericIdentifier(first) && IsNumericIdentifier(second) && IsNumericIdentifier(third)
    ensures Split(Dotted(first, second, third), '.') == [first, second, third]
    ensures '-' !in Dotted(first, second, third)
  {
    var parts := [first, second, third];
    forall i | 0 <= i < 3 ensures '.' !in parts[i] && '-' !in parts[i] {
      NumbersExactlyWhen(parts[i]);
    }
    assert parts[0] == first && parts[1] == second && parts[2] == third;
    DottedIsJoined(first, second, third);
    JoinedPartsSplit(parts, '.');
  }

  lemma NumbersMakeACore(core: string, first: string, second: string, third: string)
    requires core == Dotted(first, second, third)
    requires IsNumericIdentifier(first) && IsNumericIdentifier(second) && IsNumericIdentifier(third)
    ensures IsCore(core)
  {
    DottedSplits(first, second, third);
  }

  /** The part of a version before the hyphen. */
  predicate IsCore(core: string) {
    && '-' !in core && |Split(core, '.')| == 3
    && forall i :: 0 <= i < 3 ==> IsNumericIdentifier(Split(core, '.')[i])
  }

  lemma FieldsSplit(fields: seq<string>)
    requires fields != [] && forall i :: 0 <= i < |fields| ==> IsField(fields[i])
    ensures Split(Join(fields, '.'), '.') == fields
  {
    forall i | 0 <= i < |fields| ensures '.' !in fields[i] {
      FieldsExactlyWhen(fields[i]);
    }
    JoinedPartsSplit(fields, '.');
  }

  lemma CoreAndFieldsAreSemantic(core: string, fields: seq<string>)
    requires IsCore(core) && forall i :: 0 <= i < |fields| ==> IsField(fields[i])
    ensures IsSemanticVersion(WithFields(core, fields))
  {
    var text := WithFields(core, fields);
    if fields == [] {
      UntilEnds(core, "", '-');
      assert core + "" == core && text[..|core|] == core;
    } else {
      UntilEnds(core, "-" + Join(fields, '.'), '-');
      FieldsSplit(fields);
      assert text[..|core|] == core && text[|core| + 1..] == Join(fields, '.');
      forall field | field in fields ensures IsPrereleaseIdentifier(field) {
        FieldsExactlyWhen(field);
      }
    }
  }

  lemma PrintedVersionIsSemantic(major: nat, minor: nat, patch: nat, fields: seq<string>)
    requires forall i :: 0 <= i < |fields| ==> IsField(fields[i])
    ensures IsSemanticVersion(PrintedVersion(major, minor, patch, fields))
  {
    PrintedNumberIsNumeric(major);
    PrintedNumberIsNumeric(minor);
    PrintedNumberIsNumeric(patch);
    var core := Dotted(Show(major), Show(minor), Show(patch));
    NumbersMakeACore(core, Show(major), Show(minor), Show(patch));
    CoreAndFieldsAreSemantic(core, fields);
  }

  lemma CoreIsPrinted(core: string) returns (major: nat, minor: nat, patch: nat)
    requires |Split(core, '.')| == 3 && forall i :: 0 <= i < 3 ==> IsNumericIdentifier(Split(core, '.')[i])
    ensures core == Dotted(Show(major), Show(minor), Show(patch))
  {
    var parts := Split(core, '.');
    NumbersExactlyWhen(parts[0]);
    NumbersExactlyWhen(parts[1]);
    NumbersExactlyWhen(parts[2]);
    major :| parts[0] == Show(major);
    minor :| parts[1] == Show(minor);
    patch :| parts[2] == Show(patch);
    SplitTextJoins(core, '.');
    assert parts == [parts[0], parts[1], parts[2]];
    DottedIsJoined(parts[0], parts[1], parts[2]);
  }

  lemma SemanticVersionIsCoreAndFields(text: string) returns (core: string, fields: seq<string>)
    requires IsSemanticVersion(text)
    ensures |Split(core, '.')| == 3 && forall i :: 0 <= i < 3 ==> IsNumericIdentifier(Split(core, '.')[i])
    ensures text == WithFields(core, fields) && forall i :: 0 <= i < |fields| ==> IsField(fields[i])
  {
    var n := Until(text, '-');
    core := text[..n];
    if n == |text| {
      fields := [];
      assert text[..n] == text;
    } else {
      fields := Split(text[n + 1..], '.');
      SplitTextJoins(text[n + 1..], '.');
      forall i | 0 <= i < |fields| ensures IsField(fields[i]) {
        assert fields[i] in fields;
        FieldsExactlyWhen(fields[i]);
      }
      assert text == text[..n] + ("-" + text[n + 1..]);
    }
  }

  lemma SemanticVersionIsPrinted(text: string) returns (major: nat, minor: nat, patch: nat, fields: seq<string>)
    requires IsSemanticVersion(text)
    ensures text == PrintedVersion(major, minor, patch, fields)
    ensures forall i :: 0 <= i < |fields| ==> IsField(fields[i])
  {
    var core;
    core, fields := SemanticVersionIsCoreAndFields(text);
    major, minor, patch := CoreIsPrinted(core);
  }

  ghost predicate AreFields(fields: seq<string>) {
    forall i :: 0 <= i < |fields| ==> IsField(fields[i])
  }

  /** The accepted versions are three printed numbers and, after a hyphen, at least one field; nothing else. */
  lemma SemanticVersionExactlyWhen(text: string)
    ensures IsSemanticVersion(text) <==>
            exists major, minor, patch, fields ::
              AreFields(fields) && text == PrintedVersion(major, minor, patch, fields)
  {
    if IsSemanticVersion(text) {
      var major, minor, patch, fields := SemanticVersionIsPrinted(text);
      assert AreFields(fields);
    }
    if exists major, minor, patch, fields :: AreFields(fields) && text == PrintedVersion(major, minor, patch, fields) {
      var major, minor, patch, fields :| AreFields(fields) && text == PrintedVersion(major, minor, patch, fields);
      PrintedVersionIsSemantic(major, minor, patch, fields);
    }
  }

  // ---- How a run ends --------------------------------------------------------------------------------------

  predicate IsOfClient(slot: Slot) {
    slot == CliManifest || slot == CliLock
  }

  predicate IsInLockFile(slot: Slot) {
    slot == CliLock || slot == ProviderLock || slot == ServerLock
  }

  /** Every place belongs to one component, once; manifests come before lock file entries. */
  lemma PlacesOfAComponent(component: Component, slot: Slot)
    ensures slot in Slots(component) <==> (component == Cli <==> IsOfClient(slot))
    ensures forall i, j :: 0 <= i < j < |Slots(component)| ==>
              && Slots(component)[i] != Slots(component)[j]
              && (IsInLockFile(Slots(component)[i]) ==> IsInLockFile(Slots(component)[j]))
  {
  }

  /** The place can be read, and bears this version. */
  predicate Bears(entries: Entries, slot: Slot, version: string) {
    slot in entries && entries[slot].version == version
  }

  /** Every place of the component bears the version, and every other place the development version. */
  ghost predicate BearsOnly(entries: Entries, component: Component, version: string) {
    forall slot: Slot :: Bears(entries, slot, if component == Cli <==> IsOfClient(slot) then version else "0.0.0-dev")
  }

  /** The first place that cannot be read. */
  predicate IsFirstUnreadable(entries: Entries, slots: seq<Slot>, k: nat) {
    k < |slots| && slots[k] !in entries && forall i :: 0 <= i < k ==> slots[i] in entries
  }

  /** The first place that is not spelled as the replacement expects. */
  predicate IsFirstMisspelled(entries: Entries, slots: seq<Slot>, k: nat) {
    && k < |slots| && (forall i :: 0 <= i <= k ==> slots[i] in entries)
    && !entries[slots[k]].canonical && forall i :: 0 <= i < k ==> entries[slots[i]].canonical
  }

  lemma {:induction false} UnreadableIsReported(entries: Entries, slots: seq<Slot>) returns (k: nat)
    requires exists slot :: slot in slots && slot !in entries
    ensures IsFirstUnreadable(entries, slots, k) && FirstUnreadable(entries, slots) == Some(slots[k])
  {
    if slots[0] !in entries {
      k := 0;
    } else {
      k := UnreadableIsReported(entries, slots[1..]);
      k := k + 1;
    }
  }

  lemma ReadableIsNotReported(entries: Entries, slots: seq<Slot>)
    requires forall slot :: slot in slots ==> slot in entries
    ensures FirstUnreadable(entries, slots) == None
  {
  }

  lemma SomePlaceBelongsToTheOther(entries: Entries, component: Component)
    requires exists slot: Slot :: slot !in entries
    requires forall slot :: slot in Slots(component) ==> slot in entries
    ensures exists slot :: slot in Slots(Other(component)) && slot !in entries
  {
    var slot: Slot :| slot !in entries;
    PlacesOfAComponent(component, slot);
    PlacesOfAComponent(Other(component), slot);
  }

  /** A run that cannot read some place names the first one, the component's own places before the other's. */
  lemma UnreadableEndsTheRun(entries: Entries, component: Component, version: string) returns (k: nat)
    requires exists slot: Slot :: slot !in entries
    ensures var slots := Slots(component) + Slots(Other(component));
            && IsFirstUnreadable(entries, slots, k)
            && PreparationOf(entries, component, version) == Outcome(entries, Err(Unreadable(slots[k])))
  {
    var own, other := Slots(component), Slots(Other(component));
    if exists slot :: slot in own && slot !in entries {
      k := UnreadableIsReported(entries, own);
      assert forall i :: 0 <= i <= k ==> (own + other)[i] == own[i];
    } else {
      ReadableIsNotReported(entries, own);
      SomePlaceBelongsToTheOther(entries, component);
      k := UnreadableIsReported(entries, other);
      k := k + |own|;
      assert forall i :: 0 <= i < |own| ==> (own + other)[i] in own;
    }
  }

  lemma UniformExactlyWhen(entries: Entries, component: Component, version: string)
    ensures Uniformly(entries, component, version) <==>
            forall slot: Slot :: (component == Cli <==> IsOfClient(slot)) ==> Bears(entries, slot, version)
  {
    forall slot: Slot
      ensures slot in Slots(component) <==> (component == Cli <==> IsOfClient(slot))
    {
      PlacesOfAComponent(component, slot);
    }
    if Uniformly(entries, component, version) {
      forall slot: Slot | component == Cli <==> IsOfClient(slot) ensures Bears(entries, slot, version) {
        assert slot in Slots(component);
      }
    } else {
      var slot :| slot in Slots(component) && !(slot in entries && entries[slot].version == version);
      assert !Bears(entries, slot, version);
    }
  }

  lemma PreparedExactlyWhen(entries: Entries, component: Component, version: string)
    ensures IsPrepared(entries, component, version) <==> BearsOnly(entries, component, version)
    ensures IsDevelopment(entries) <==> forall slot: Slot :: Bears(entries, slot, "0.0.0-dev")
  {
    UniformExactlyWhen(entries, component, version);
    UniformExactlyWhen(entries, Other(component), DEVELOPMENT_VERSION);
    UniformExactlyWhen(entries, Cli, DEVELOPMENT_VERSION);
    UniformExactlyWhen(entries, Server, DEVELOPMENT_VERSION);
  }

  /** A run on a development copy rewrites the places up to the first that is not spelled as expected. */
  lemma MisspelledEndsTheRewriting(entries: Entries, component: Component, version: string) returns (k: nat)
    requires IsDevelopment(entries) && version != "0.0.0-dev"
    ensures var slots, outcome := Slots(component), PreparationOf(entries, component, version);
            && k <= |slots| && outcome.entries == Written(entries, slots[..k], version)
            && if k < |slots| then IsFirstMisspelled(entries, slots, k) && outcome.result == Err(NoMatch(slots[k]))
               else (forall slot :: slot in slots ==> entries[slot].canonical)
                    && outcome.result == Ok(())
  {
    var slots := Slots(component);
    DevelopmentIsNotPrepared(entries, component, version);
    k := Writable(entries, slots);
    forall i | 0 <= i < |slots| ensures Bears(entries, slots[i], "0.0.0-dev") {
      assert slots[i] in slots;
    }
  }

  lemma ReadableCopyIsExamined(entries: Entries, component: Component, version: string)
    requires forall slot: Slot :: slot in entries
    ensures Examined(entries, component, version)
         == if BearsOnly(entries, component, version) then Ok(true)
            else if forall slot: Slot :: Bears(entries, slot, "0.0.0-dev") then Ok(false)
            else Err(Refused)
  {
    ReadableIsNotReported(entries, Slots(component));
    ReadableIsNotReported(entries, Slots(Other(component)));
    PreparedExactlyWhen(entries, component, version);
  }

  /** How a run for a component ends on any working copy. */
  lemma ValidRunEndsExactlyAs(entries: Entries, component: Component, version: string) returns (k: nat)
    requires version != "0.0.0-dev"
    ensures var outcome, own := PreparationOf(entries, component, version), Slots(component);
            var places := own + Slots(Other(component));
            if exists slot: Slot :: slot !in entries then
              IsFirstUnreadable(entries, places, k) && outcome == Outcome(entries, Err(Unreadable(places[k])))
            else if BearsOnly(entries, component, version) then outcome == Outcome(entries, Ok(()))
            else if exists slot: Slot :: !Bears(entries, slot, "0.0.0-dev") then
              outcome == Outcome(entries, Err(Refused))
            else
              && k <= |own| && outcome.entries == Written(entries, own[..k], version)
              && if k < |own| then IsFirstMisspelled(entries, own, k) && outcome.result == Err(NoMatch(own[k]))
                 else (forall slot :: slot in own ==> entries[slot].canonical) && outcome.result == Ok(())
  {
    k := 0;
    if exists slot: Slot :: slot !in entries {
      k := UnreadableEndsTheRun(entries, component, version);
    } else {
      ReadableCopyIsExamined(entries, component, version);
      if forall slot: Slot :: Bears(entries, slot, "0.0.0-dev") {
        PreparedExactlyWhen(entries, component, version);
        if !BearsOnly(entries, component, version) {
          k := MisspelledEndsTheRewriting(entries, component, version);
        }
      }
    }
  }

  /** A request names one of two components and a version other than that of development; others end at once. */
  lemma InvalidRequestsEndAtOnce(entries: Entries, name: string, version: string)
    ensures var outcome := Preparation(entries, name, version);
            if name != "cli" && name != "server" then outcome == Outcome(entries, Err(UnknownComponent))
            else if version == "0.0.0-dev" || !IsSemanticVersion(version) then
              outcome == Outcome(entries, Err(InvalidVersion))
            else outcome == PreparationOf(entries, if name == "cli" then Cli else Server, version)
  {
  }
}
