/** Exactly when rows are sealed, checked and opened, and when a replica starts, on the fields of row and replica. */
module MacRootRules {
  import opened Wrappers
  import opened Contexts
  import opened MacRoot

  /** The stored pair is one that a provider could have: a proper name and a positive version. */
  predicate HasProperPair(row: Row) {
    && 0 < |row.providerId| <= 128 && (forall i :: 0 <= i < |row.providerId| ==> ProviderByte(row.providerId[i]))
    && 0 < row.formatVersion < 0x1_0000_0000
  }

  /** The replica's custody service still opens what was sealed under the stored pair. */
  predicate Opens(replica: Replica, row: Row) {
    row.formatVersion >= 0 && CustodyPair(row.providerId, row.formatVersion) in replica.supported
  }

  /** What custody makes of the envelope under the context that the stored pair rebuilds. */
  function Opened(deployment: Deployment, row: Row): Option<Bytes>
    requires row.formatVersion >= 0
  {
    deployment.custody.open(RootContext(deployment, CustodyPair(row.providerId, row.formatVersion)), row.envelope)
  }

  /** For every row and replica: when the row opens, to what, and which error it meets otherwise. */
  lemma RowOpensExactlyWhen(deployment: Deployment, replica: Replica, row: Row)
    ensures var result := OpenRow(deployment, replica, row);
            var proper := HasProperPair(row) && 0 < |row.envelope| <= 1_048_576;
            && (forall root :: result == Ok(root) <==>
                  && row.contextVersion == 1 && proper && Opens(replica, row)
                  && Opened(deployment, row) == Some(root) && |root| == 32)
            && (result == Err(UnsupportedPersistedCustody) <==> row.contextVersion != 1)
            && (result == Err(InvalidCustodyMetadata) <==>
                row.contextVersion == 1 &&
                (!proper || (&& Opens(replica, row) && Opened(deployment, row).Some?
                             && |Opened(deployment, row).value| != 32)))
            && (result == Err(SecretServiceFailed) <==>
                row.contextVersion == 1 && proper && (!Opens(replica, row) || Opened(deployment, row).None?))
  {
  }

  /** For every row and replica: whether the replica goes on after its check of the table, and why not. */
  lemma RowIsCheckedExactlyWhen(replica: Replica, row: Row)
    ensures CheckRow(replica, None) == None
    ensures var problem := CheckRow(replica, Some(row));
            && (problem == None <==> HasProperPair(row) && row.contextVersion == 1 && Opens(replica, row))
            && (problem == Some(InvalidCustodyMetadata) <==> !HasProperPair(row))
            && (problem == Some(UnsupportedPersistedCustody) <==>
                HasProperPair(row) && (row.contextVersion != 1 || !Opens(replica, row)))
  {
  }

  /** For every replica and root: when a row is sealed, what it holds, and which error is met otherwise. */
  lemma RowIsSealedExactlyWhen(deployment: Deployment, replica: Replica, root: Bytes, nonce: nat)
    ensures var pair, result := replica.writePair, SealRow(deployment, replica, root, nonce);
            && (result.Ok? <==> pair in replica.supported && pair.formatVersion <= 0x7FFF_FFFF)
            && (result.Ok? ==>
                && result.value.providerId == pair.providerId && result.value.formatVersion == pair.formatVersion
                && result.value.contextVersion == 1
                && result.value.envelope == deployment.custody.seal(RootContext(deployment, pair), root, nonce))
            && (result == Err(SecretServiceFailed) <==> pair !in replica.supported)
            && (result == Err(InvalidCustodyMetadata) <==>
                pair in replica.supported && pair.formatVersion > 0x7FFF_FFFF)
  {
  }

  predicate IsIdentifier(text: Bytes) {
    Bounded(text, 128, IdentifierByte)
  }

  /** The context of the root binds it to the installation and the pair: none is shared by two of either. */
  lemma RootContextBindsInstallationAndPair(a: Deployment, b: Deployment, p: CustodyPair, q: CustodyPair)
    requires IsIdentifier(a.installationId) && IsIdentifier(b.installationId) && ValidPair(p) && ValidPair(q)
    ensures RootContext(a, p) <= RootContext(b, q) <==> a.installationId == b.installationId && p == q
  {
    RootPartsAreValid(a, p);
    RootPartsAreValid(b, q);
    if RootContext(a, p) <= RootContext(b, q) {
      EncodingIsInjectiveAndPrefixFree(RootParts(a.installationId, p), RootParts(b.installationId, q));
    }
  }

  predicate IsPlain(text: string) {
    forall i :: 0 <= i < |text| ==> text[i] as int < 256 && IdentifierByte(text[i] as int)
  }

  lemma PlainTextIsAnIdentifier(text: string, max: nat)
    requires IsPlain(text) && 0 < |text| <= max
    ensures Bounded(Ascii(text), max, IdentifierByte)
  {
  }

  lemma IdsAreIdentifiers()
    ensures Bounded(Ascii("019b25d7-ef79-7000-8000-000000000002"), 128, IdentifierByte)
    ensures Bounded(Ascii("019b25d7-ef79-7000-8000-000000000001"), 128, IdentifierByte)
  {
    PlainTextIsAnIdentifier("019b25d7-ef79-7000-8000-000000000002", 128);
    PlainTextIsAnIdentifier("019b25d7-ef79-7000-8000-000000000001", 128);
  }

  lemma NamesAreIdentifiers()
    ensures Bounded(Ascii("system_secret_authority"), 64, IdentifierByte)
    ensures Bounded(Ascii("server_mac_root"), 64, IdentifierByte)
  {
    PlainTextIsAnIdentifier("system_secret_authority", 64);
    PlainTextIsAnIdentifier("server_mac_root", 64);
  }

  lemma RootPartsAreValid(deployment: Deployment, pair: CustodyPair)
    requires IsIdentifier(deployment.installationId) && ValidPair(pair)
    ensures Valid(RootParts(deployment.installationId, pair))
  {
    IdsAreIdentifiers();
    NamesAreIdentifiers();
  }

  /** What an independent decoder reads from it: the one secret of the system that is the root, under this pair. */
  lemma RootContextNamesTheRoot(deployment: Deployment, pair: CustodyPair)
    requires IsIdentifier(deployment.installationId) && ValidPair(pair)
    ensures Decode(RootContext(deployment, pair)).Some?
    ensures var (parts, rest) := Decode(RootContext(deployment, pair)).value;
            && rest == [] && parts.installationId == deployment.installationId && parts.scope == System
            && parts.ownerKind == Ascii("system_secret_authority") && parts.fieldPurpose == Ascii("server_mac_root")
            && parts.ownerGeneration == 1 && parts.secretVersion == 1
            && parts.providerId == pair.providerId && parts.providerFormatVersion == pair.formatVersion
  {
    RootPartsAreValid(deployment, pair);
    DecodeRecoversEveryField(RootParts(deployment.installationId, pair), []);
    assert RootContext(deployment, pair) + [] == RootContext(deployment, pair);
  }

  // ---- When a replica starts -----------------------------------------------------------------------------

  /** The step in which a replica stores its own root and learns of it, or opens the row that it read. */
  ghost predicate Serves(deployment: Deployment, state: State, action: Action, root: Bytes) {
    && action.r < |deployment.replicas| && action.r < |state.phases|
    && match (action, state.phases[action.r])
       case (Insert(_, acknowledged), Sealed(own, _)) => acknowledged && state.row.None? && root == own
       case (Open(r), Opening(row)) => OpenRow(deployment, deployment.replicas[r], row) == Ok(root)
       case _ => false
  }

  lemma StepServesExactlyWhen(deployment: Deployment, state: State, action: Action, root: Bytes)
    ensures root in Apply(deployment, state, action).served <==>
            root in state.served || Serves(deployment, state, action, root)
  {
  }

  lemma RunOneMore(deployment: Deployment, actions: seq<Action>)
    requires actions != []
    ensures var n := |actions| - 1;
            Run(deployment, Initial(deployment), actions)
            == Apply(deployment, Run(deployment, Initial(deployment), actions[..n]), actions[n])
  {
    var n := |actions| - 1;
    assert actions == actions[..n] + [actions[n]];
    RunsCompose(deployment, Initial(deployment), actions[..n], [actions[n]]);
    assert [actions[n]][1..] == [];
  }

  /**
   * In every run a root is served exactly by a replica whose own insertion was acknowledged, or that opened the
   * stored row; an insertion that the replica does not hear of never serves.
   */
  lemma {:induction false} ServedExactlyWhen(deployment: Deployment, actions: seq<Action>, root: Bytes)
    ensures root in Run(deployment, Initial(deployment), actions).served <==>
            exists k :: && 0 <= k < |actions|
                        && Serves(deployment, Run(deployment, Initial(deployment), actions[..k]), actions[k], root)
    decreases |actions|
  {
    if actions != [] {
      var n := |actions| - 1;
      RunOneMore(deployment, actions);
      ServedExactlyWhen(deployment, actions[..n], root);
      StepServesExactlyWhen(deployment, Run(deployment, Initial(deployment), actions[..n]), actions[n], root);
      assert forall k :: 0 <= k < n ==> actions[..n][..k] == actions[..k] && actions[..n][k] == actions[k];
    }
  }

  /** The step in which a replica finds the table empty with a sealed row in hand, acknowledged or not. */
  predicate Stores(deployment: Deployment, state: State, action: Action, row: Row) {
    && action.Insert? && action.r < |deployment.replicas| && action.r < |state.phases|
    && state.row.None? && state.phases[action.r].Sealed? && state.phases[action.r].row == row
  }

  /** In every run the table holds exactly the row of the first insertion that found it empty. */
  lemma {:induction false} StoredExactlyWhen(deployment: Deployment, actions: seq<Action>, row: Row)
    ensures Run(deployment, Initial(deployment), actions).row == Some(row) <==>
            exists k :: && 0 <= k < |actions|
                        && Stores(deployment, Run(deployment, Initial(deployment), actions[..k]), actions[k], row)
    decreases |actions|
  {
    if actions != [] {
      var n := |actions| - 1;
      RunOneMore(deployment, actions);
      StoredExactlyWhen(deployment, actions[..n], row);
      StoredRowStays(deployment, Run(deployment, Initial(deployment), actions[..n]), actions[n]);
      assert forall k :: 0 <= k < n ==> actions[..n][..k] == actions[..k] && actions[..n][k] == actions[k];
    }
  }

  /** A replica moves only by its own steps, and one that has started stays so until it is restarted. */
  lemma OthersStandStill(deployment: Deployment, state: State, action: Action, r: nat)
    requires r < |state.phases|
    ensures |Apply(deployment, state, action).phases| == |state.phases|
    ensures action.r != r ==> Apply(deployment, state, action).phases[r] == state.phases[r]
    ensures state.phases[r].Started? && !action.Restart? ==>
              Apply(deployment, state, action).phases[r] == state.phases[r]
  {
  }
}
