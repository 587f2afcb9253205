/** Capabilities, scopes and roles, and the JSON form in which capability ceilings are stored. */
module Authorization {
  import opened Wrappers

  datatype OrganizationId = OrganizationId(uuid: nat)

  datatype OrganizationRole = Owner | Admin | Member

  datatype ManagementScope = Read | Write | Secrets | Operations | Authority

  datatype ResourceScope = Deployment | Organization(organizationId: OrganizationId)

  datatype Capability =
    | SystemAdministration
    | ReadOrganization
    | UpdateOrganization
    | ReadMembers
    | ManageMembers
    | ManageOwners
    | ReadManagementKeys
    | CreateManagementKeys
    | ManageManagementKeys
    | UpdateApiKeyPolicy
    | ReadAudit
    | ManageIdentity
    | ManageSystemKeys
    | ManageSystemOrganizations
    | ManageSystemUsers
    | ManageAdministrators
    | ManageGatewayCatalog
    | ReadGatewayKeys
    | CreateGatewayKeys
    | ManageGatewayKeys
    | ManageByok
    | ConfigureRoutes
    | ConfigureBudgets
    | ReadUsage
    | ReadOperations
    | RecoverOperations

  /** The JSON values a capability ceiling can hold, as far as the code looks at them. */
  datatype Value = Text(text: string) | List(items: seq<Value>) | Other

  const ALL_SCOPES: set<ManagementScope> := {Read, Write, Secrets, Operations, Authority}

  const ALL_IN_ORDER: seq<Capability> := [
    SystemAdministration, ReadOrganization, UpdateOrganization, ReadMembers, ManageMembers, ManageOwners,
    ReadManagementKeys, CreateManagementKeys, ManageManagementKeys, UpdateApiKeyPolicy, ReadAudit,
    ManageIdentity, ManageSystemKeys, ManageSystemOrganizations, ManageSystemUsers, ManageAdministrators,
    ManageGatewayCatalog, ReadGatewayKeys, CreateGatewayKeys, ManageGatewayKeys, ManageByok,
    ConfigureRoutes, ConfigureBudgets, ReadUsage, ReadOperations, RecoverOperations
  ]

  const ALL: set<Capability> := set c | c in ALL_IN_ORDER

  function Name(capability: Capability): string {
    match capability
    case SystemAdministration => "system_administration"
    case ReadOrganization => "read_organization"
    case UpdateOrganization => "update_organization"
    case ReadMembers => "read_members"
    case ManageMembers => "manage_members"
    case ManageOwners => "manage_owners"
    case ReadManagementKeys => "read_management_keys"
    case CreateManagementKeys => "create_management_keys"
    case ManageManagementKeys => "manage_management_keys"
    case UpdateApiKeyPolicy => "update_api_key_policy"
    case ReadAudit => "read_audit"
    case ManageIdentity => "manage_identity"
    case ManageSystemKeys => "manage_system_keys"
    case ManageSystemOrganizations => "manage_system_organizations"
    case ManageSystemUsers => "manage_system_users"
    case ManageAdministrators => "manage_administrators"
    case ManageGatewayCatalog => "manage_gateway_catalog"
    case ReadGatewayKeys => "read_gateway_keys"
    case CreateGatewayKeys => "create_gateway_keys"
    case ManageGatewayKeys => "manage_gateway_keys"
    case ManageByok => "manage_byok"
    case ConfigureRoutes => "configure_routes"
    case ConfigureBudgets => "configure_budgets"
    case ReadUsage => "read_usage"
    case ReadOperations => "read_operations"
    case RecoverOperations => "recover_operations"
  }

  /** The first capability in declaration order that carries the name. */
  function ParseIn(name: string, candidates: seq<Capability>): (found: Option<Capability>)
    ensures found.Some? ==> found.value in candidates && Name(found.value) == name
    ensures found.None? ==> forall c :: c in candidates ==> Name(c) != name
  {
    if candidates == [] then None
    else if Name(candidates[0]) == name then Some(candidates[0])
    else ParseIn(name, candidates[1..])
  }

  function Parse(name: string): Option<Capability> {
    ParseIn(name, ALL_IN_ORDER)
  }

  lemma AllIsComplete(c: Capability)
    ensures c in ALL_IN_ORDER && c in ALL
  {
  }

  lemma NamesAreDistinct(a: Capability, b: Capability)
    requires Name(a) == Name(b)
    ensures a == b
  {
  }

  /** One name of a stored ceiling; the administrator's name stands for every capability. */
  function Granted(item: Value): Option<set<Capability>> {
    if !item.Text? then None
    else if item.text == "system_administration" then Some(ALL)
    else match Parse(item.text)
      case None => None
      case Some(capability) => Some({capability})
  }

  function Grants(items: seq<Value>): (grants: seq<Option<set<Capability>>>)
    ensures |grants| == |items|
  {
    seq(|items|, i requires 0 <= i < |items| => Granted(items[i]))
  }

  /** Everything granted together, or nothing when one item is malformed. */
  function UnionOf(grants: seq<Option<set<Capability>>>): Option<set<Capability>> {
    if grants == [] then Some({})
    else
      var before, last := UnionOf(grants[..|grants| - 1]), grants[|grants| - 1];
      if before.Some? && last.Some? then Some(before.value + last.value) else None
  }

  function DecodeCeiling(value: Value): Option<set<Capability>> {
    if value.List? then UnionOf(Grants(value.items)) else None
  }

  method CapabilitiesFromValue(value: Value) returns (decoded: Option<set<Capability>>)
    ensures decoded == DecodeCeiling(value)
  {
    if !value.List? {
      return None;
    }
    ghost var grants := Grants(value.items);
    var capabilities: set<Capability> := {};
    for i := 0 to |value.items|
      invariant UnionOf(grants[..i]) == Some(capabilities)
    {
      var granted := Granted(value.items[i]);
      if granted.None? {
        OneMalformedSpoilsAll(grants, i);
        return None;
      }
      assert grants[..i + 1][..i] == grants[..i];
      capabilities := capabilities + granted.value;
    }
    assert grants[..|value.items|] == grants;
    return Some(capabilities);
  }

  lemma {:induction false} OneMalformedSpoilsAll(grants: seq<Option<set<Capability>>>, at: nat)
    requires at < |grants| && grants[at].None?
    ensures UnionOf(grants).None?
  {
    if at < |grants| - 1 {
      OneMalformedSpoilsAll(grants[..|grants| - 1], at);
    }
  }

  lemma {:induction false} UnionMembership(grants: seq<Option<set<Capability>>>, capability: Capability)
    ensures UnionOf(grants).Some? <==> forall i :: 0 <= i < |grants| ==> grants[i].Some?
    ensures UnionOf(grants).Some? ==>
              (capability in UnionOf(grants).value <==>
               exists i :: 0 <= i < |grants| && capability in grants[i].value)
  {
    if grants != [] {
      var n := |grants| - 1;
      UnionMembership(grants[..n], capability);
      assert forall i :: 0 <= i < n ==> grants[..n][i] == grants[i];
    }
  }

  /** One item of a raw ceiling names the capability, or names administration. */
  predicate Mentions(item: Value, capability: Capability) {
    item == Text(Name(capability)) || item == Text("system_administration")
  }

  /** The test that authorization runs on the raw JSON ceiling. */
  predicate ValueHasCapability(value: Value, capability: Capability) {
    value.List? && exists item :: item in value.items && Mentions(item, capability)
  }

  lemma ParsedName(name: string, capability: Capability)
    requires Parse(name).Some?
    ensures name == Name(capability) <==> Parse(name) == Some(capability)
  {
    if name == Name(capability) {
      NamesAreDistinct(Parse(name).value, capability);
    }
  }

  lemma NamedItemMembership(name: string, capability: Capability)
    requires name != "system_administration" && Parse(name).Some?
    ensures Granted(Text(name)) == Some({Parse(name).value})
    ensures Parse(name).value == capability <==> Mentions(Text(name), capability)
  {
    ParsedName(name, capability);
  }

  lemma ItemMembership(item: Value, capability: Capability)
    requires Granted(item).Some?
    ensures capability in Granted(item).value <==> Mentions(item, capability)
  {
    if item.text == "system_administration" {
      assert Granted(item).value == ALL && Mentions(item, capability);
      AllIsComplete(capability);
    } else {
      NamedItemMembership(item.text, capability);
    }
  }

  /** The raw test and the decoded set agree on every well-formed ceiling. */
  lemma RawTestAgreesWithDecodedSet(value: Value, capability: Capability)
    requires DecodeCeiling(value).Some?
    ensures ValueHasCapability(value, capability) <==> capability in DecodeCeiling(value).value
  {
    var items, grants := value.items, Grants(value.items);
    UnionMembership(grants, capability);
    forall i | 0 <= i < |items|
      ensures items[i] in items && (capability in grants[i].value <==> Mentions(items[i], capability))
    {
      ItemMembership(items[i], capability);
    }
  }

  /** How a capability set is written to JSON: the names in declaration order. */
  function EncodeIn(capabilities: set<Capability>, candidates: seq<Capability>): (items: seq<Value>)
    ensures forall item :: item in items <==>
              exists c :: c in candidates && c in capabilities && item == Text(Name(c))
  {
    if candidates == [] then []
    else
      var rest := EncodeIn(capabilities, candidates[1..]);
      if candidates[0] in capabilities then [Text(Name(candidates[0]))] + rest else rest
  }

  function EncodeCeiling(capabilities: set<Capability>): Value {
    List(EncodeIn(capabilities, ALL_IN_ORDER))
  }

  /** Writing a set and reading it back widens it exactly when it holds system administration. */
  lemma StoredCeilingReadsBack(capabilities: set<Capability>)
    ensures DecodeCeiling(EncodeCeiling(capabilities))
         == Some(if SystemAdministration in capabilities then ALL else capabilities)
  {
    EncodedDecodes(capabilities);
    forall c: Capability
      ensures c in ALL
      ensures c in DecodeCeiling(EncodeCeiling(capabilities)).value <==>
              c in capabilities || SystemAdministration in capabilities
    {
      AllIsComplete(c);
      RawTestAgreesWithDecodedSet(EncodeCeiling(capabilities), c);
      EncodedMentions(capabilities, c);
    }
    var decoded := DecodeCeiling(EncodeCeiling(capabilities)).value;
    assert decoded == if SystemAdministration in capabilities then ALL else capabilities;
  }

  /** What a set that was written and read back leaves of a ceiling it once was narrowed from. */
  lemma StoredCeilingMeets(capabilities: set<Capability>, ceiling: set<Capability>)
    requires capabilities <= ceiling
    ensures DecodeCeiling(EncodeCeiling(capabilities)).Some?
    ensures capabilities <= DecodeCeiling(EncodeCeiling(capabilities)).value
    ensures DecodeCeiling(EncodeCeiling(capabilities)).value * ceiling
         == if SystemAdministration in capabilities then ceiling else capabilities
  {
    StoredCeilingReadsBack(capabilities);
    forall c: Capability ensures c in ALL {
      AllIsComplete(c);
    }
  }

  lemma EncodedDecodes(capabilities: set<Capability>)
    ensures DecodeCeiling(EncodeCeiling(capabilities)).Some?
  {
    var items := EncodeIn(capabilities, ALL_IN_ORDER);
    UnionMembership(Grants(items), SystemAdministration);
    forall i | 0 <= i < |items| ensures Granted(items[i]).Some? {
      assert items[i] in items;
    }
  }

  lemma EncodedMentions(capabilities: set<Capability>, c: Capability)
    ensures ValueHasCapability(EncodeCeiling(capabilities), c) <==>
            c in capabilities || SystemAdministration in capabilities
  {
    AllIsComplete(c);
    AllIsComplete(SystemAdministration);
    if c in capabilities {
      assert Mentions(Text(Name(c)), c);
    } else if SystemAdministration in capabilities {
      assert Mentions(Text(Name(SystemAdministration)), c);
    } else if ValueHasCapability(EncodeCeiling(capabilities), c) {
      EncodedMentionIsHeld(capabilities, ALL_IN_ORDER, c);
    }
  }

  lemma EncodedMentionIsHeld(capabilities: set<Capability>, candidates: seq<Capability>, c: Capability)
    requires ValueHasCapability(List(EncodeIn(capabilities, candidates)), c)
    ensures c in capabilities || SystemAdministration in capabilities
  {
    var item :| item in EncodeIn(capabilities, candidates) && Mentions(item, c);
    var d :| d in candidates && d in capabilities && item == Text(Name(d));
    if item == Text(Name(c)) {
      NamesAreDistinct(d, c);
    } else {
      NamesAreDistinct(d, SystemAdministration);
    }
  }

  predicate RoleAllows(role: OrganizationRole, capability: Capability) {
    match capability
    case ManageOwners => role == Owner
    case UpdateOrganization | ManageMembers | CreateManagementKeys | ManageManagementKeys
       | UpdateApiKeyPolicy | CreateGatewayKeys | ManageGatewayKeys | ManageByok
       | ConfigureRoutes | ConfigureBudgets => role == Owner || role == Admin
    case ReadOrganization | ReadMembers | ReadManagementKeys | ReadGatewayKeys
       | ReadUsage | ReadAudit => true
    case _ => false
  }

  predicate AtLeast(stronger: OrganizationRole, weaker: OrganizationRole) {
    weaker == Member || stronger == Owner || stronger == weaker
  }
}
