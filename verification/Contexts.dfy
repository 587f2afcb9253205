/** The length-delimited bytes that bind a protected secret to its exact context. */
module Contexts {
  import opened Wrappers

  datatype ValueError = Empty | TooLong(max: nat) | InvalidCharacters | Zero

  datatype SecretScope = System | Organization(organizationId: Bytes)

  datatype Parts = Parts(
    installationId: Bytes,
    scope: SecretScope,
    materialId: Bytes,
    ownerKind: Bytes,
    ownerId: Bytes,
    ownerGeneration: nat,
    secretVersion: nat,
    fieldPurpose: Bytes,
    providerId: Bytes,
    providerFormatVersion: nat)

  datatype Context = Context(parts: Parts, canonical: Bytes)

  const U32_BOUND: nat := 0x1_0000_0000
  const U64_BOUND: nat := 0x1_0000_0000_0000_0000
  const TAG := "OWLRORA_CONFIGURATION_SECRET_CONTEXT"

  // ---- Bounded identifiers -----------------------------------------------------------------------

  predicate LowerOrDigit(b: Byte) {
    'a' as int <= b <= 'z' as int || '0' as int <= b <= '9' as int
  }

  predicate IdentifierByte(b: Byte) {
    || LowerOrDigit(b) || 'A' as int <= b <= 'Z' as int
    || b == '_' as int || b == '-' as int || b == '.' as int || b == ':' as int || b == '/' as int
  }

  predicate ProviderByte(b: Byte) {
    LowerOrDigit(b) || b == '_' as int || b == '-' as int || b == '.' as int
  }

  predicate Bounded(value: Bytes, max: nat, allowed: Byte -> bool) {
    0 < |value| <= max && forall i :: 0 <= i < |value| ==> allowed(value[i])
  }

  function NewIdentifier(value: Bytes, max: nat, allowed: Byte -> bool): (result: Result<Bytes, ValueError>)
    ensures result.Ok? <==> Bounded(value, max, allowed)
    ensures result.Ok? ==> result.value == value
    ensures result == Err(Empty) <==> |value| == 0
    ensures result == Err(TooLong(max)) <==> |value| > max && |value| > 0
    ensures result == Err(InvalidCharacters) <==>
            0 < |value| <= max && exists i :: 0 <= i < |value| && !allowed(value[i])
  {
    if value == [] then Err(Empty)
    else if |value| > max then Err(TooLong(max))
    else if exists i :: 0 <= i < |value| && !allowed(value[i]) then Err(InvalidCharacters)
    else Ok(value)
  }

  /** Every identifier went through its constructor and every number has its machine width. */
  predicate Valid(parts: Parts) {
    && Bounded(parts.installationId, 128, IdentifierByte)
    && (parts.scope.Organization? ==> Bounded(parts.scope.organizationId, 128, IdentifierByte))
    && Bounded(parts.materialId, 128, IdentifierByte)
    && Bounded(parts.ownerKind, 64, IdentifierByte)
    && Bounded(parts.ownerId, 128, IdentifierByte)
    && parts.ownerGeneration < U64_BOUND
    && parts.secretVersion < U64_BOUND
    && Bounded(parts.fieldPurpose, 64, IdentifierByte)
    && Bounded(parts.providerId, 128, ProviderByte)
    && 0 < parts.providerFormatVersion < U32_BOUND
  }

  // ---- Numbers and texts ---------------------------------------------------------------------------

  function Bound(width: nat): nat {
    if width == 0 then 1 else 256 * Bound(width - 1)
  }

  function BigEndian(value: nat, width: nat): (bytes: Bytes)
    ensures |bytes| == width
  {
    if width == 0 then [] else BigEndian(value / 256, width - 1) + [value % 256]
  }

  function FromBigEndian(bytes: Bytes): nat {
    if bytes == [] then 0 else 256 * FromBigEndian(bytes[..|bytes| - 1]) + bytes[|bytes| - 1]
  }

  lemma {:induction false} NumberReadsBack(value: nat, width: nat)
    requires value < Bound(width)
    ensures FromBigEndian(BigEndian(value, width)) == value
  {
    if width > 0 {
      NumberReadsBack(value / 256, width - 1);
      assert BigEndian(value, width)[..width - 1] == BigEndian(value / 256, width - 1);
    }
  }

  lemma {:induction false} BytesWriteBack(bytes: Bytes)
    ensures FromBigEndian(bytes) < Bound(|bytes|)
    ensures BigEndian(FromBigEndian(bytes), |bytes|) == bytes
  {
    if bytes != [] {
      BytesWriteBack(bytes[..|bytes| - 1]);
      assert bytes == bytes[..|bytes| - 1] + [bytes[|bytes| - 1]];
    }
  }

  lemma Widths()
    ensures Bound(2) == 0x1_0000 && Bound(4) == U32_BOUND && Bound(8) == U64_BOUND
  {
  }

  function TextBytes(value: Bytes): Bytes {
    BigEndian(|value|, 2) + value
  }

  function ScopeBytes(scope: SecretScope): Bytes {
    match scope
    case System => [0]
    case Organization(id) => [1] + TextBytes(id)
  }

  function TagBytes(): (tag: Bytes)
    ensures |tag| == |TAG| + 1
  {
    seq(|TAG|, i requires 0 <= i < |TAG| => TAG[i] as int % 256) + [0]
  }

  // ---- Encoding --------------------------------------------------------------------------------------

  function OwnerThen(parts: Parts, from7: Bytes): Bytes {
    var from6 := BigEndian(parts.secretVersion, 8) + from7;
    var from5 := BigEndian(parts.ownerGeneration, 8) + from6;
    var from4 := TextBytes(parts.ownerId) + from5;
    TextBytes(parts.ownerKind) + from4
  }

  function PurposeThen(parts: Parts, rest: Bytes): Bytes {
    var from9 := BigEndian(parts.providerFormatVersion, 4) + rest;
    var from8 := TextBytes(parts.providerId) + from9;
    TextBytes(parts.fieldPurpose) + from8
  }

  /** The canonical bytes of a context followed by whatever comes after them. */
  function EncodeThen(parts: Parts, rest: Bytes): Bytes {
    var from3 := OwnerThen(parts, PurposeThen(parts, rest));
    var from2 := TextBytes(parts.materialId) + from3;
    var from1 := ScopeBytes(parts.scope) + from2;
    TagBytes() + (BigEndian(1, 4) + (TextBytes(parts.installationId) + from1))
  }

  function Encode(parts: Parts): Bytes {
    EncodeThen(parts, [])
  }

  lemma EncodeThenAppends(parts: Parts, rest: Bytes)
    ensures EncodeThen(parts, rest) == Encode(parts) + rest
  {
    var n9 := BigEndian(parts.providerFormatVersion, 4);
    var n8 := TextBytes(parts.providerId) + n9;
    var n7 := TextBytes(parts.fieldPurpose) + n8;
    var n6 := BigEndian(parts.secretVersion, 8) + n7;
    var n5 := BigEndian(parts.ownerGeneration, 8) + n6;
    var n4 := TextBytes(parts.ownerId) + n5;
    var n3 := TextBytes(parts.ownerKind) + n4;
    var n2 := TextBytes(parts.materialId) + n3;
    var n1 := ScopeBytes(parts.scope) + n2;
    var n0 := TextBytes(parts.installationId) + n1;
    assert n9 + [] == n9;
    Shift(TextBytes(parts.providerId), n9, rest);
    Shift(TextBytes(parts.fieldPurpose), n8, rest);
    Shift(BigEndian(parts.secretVersion, 8), n7, rest);
    Shift(BigEndian(parts.ownerGeneration, 8), n6, rest);
    Shift(TextBytes(parts.ownerId), n5, rest);
    Shift(TextBytes(parts.ownerKind), n4, rest);
    Shift(TextBytes(parts.materialId), n3, rest);
    Shift(ScopeBytes(parts.scope), n2, rest);
    Shift(TextBytes(parts.installationId), n1, rest);
    Shift(BigEndian(1, 4), n0, rest);
    Shift(TagBytes(), BigEndian(1, 4) + n0, rest);
  }

  lemma Shift(a: Bytes, b: Bytes, c: Bytes)
    ensures (a + b) + c == a + (b + c)
  {
  }

  method PushText(output: Bytes, value: Bytes) returns (extended: Bytes)
    requires |value| < 0x1_0000
    ensures extended == output + TextBytes(value)
  {
    extended := output + BigEndian(|value|, 2);
    extended := extended + value;
  }

  /** Appends the fields to one growing buffer, in the order that the context fixes. */
  method EncodeBuffer(parts: Parts) returns (output: Bytes)
    requires Valid(parts)
    ensures output == Encode(parts)
  {
    ghost var n9 := BigEndian(parts.providerFormatVersion, 4) + [];
    ghost var n8 := TextBytes(parts.providerId) + n9;
    ghost var n7 := TextBytes(parts.fieldPurpose) + n8;
    ghost var n6 := BigEndian(parts.secretVersion, 8) + n7;
    ghost var n5 := BigEndian(parts.ownerGeneration, 8) + n6;
    ghost var n4 := TextBytes(parts.ownerId) + n5;
    ghost var n3 := TextBytes(parts.ownerKind) + n4;
    ghost var n2 := TextBytes(parts.materialId) + n3;
    ghost var n1 := ScopeBytes(parts.scope) + n2;
    ghost var n0 := TextBytes(parts.installationId) + n1;
    output := TagBytes();
    Shift(output, BigEndian(1, 4), n0);
    output := output + BigEndian(1, 4);
    Shift(output, TextBytes(parts.installationId), n1);
    output := PushText(output, parts.installationId);
    Shift(output, ScopeBytes(parts.scope), n2);
    match parts.scope {
      case System =>
        output := output + [0];
      case Organization(id) =>
        Shift(output, [1], TextBytes(id));
        output := output + [1];
        output := PushText(output, id);
    }
    Shift(output, TextBytes(parts.materialId), n3);
    output := PushText(output, parts.materialId);
    Shift(output, TextBytes(parts.ownerKind), n4);
    output := PushText(output, parts.ownerKind);
    Shift(output, TextBytes(parts.ownerId), n5);
    output := PushText(output, parts.ownerId);
    Shift(output, BigEndian(parts.ownerGeneration, 8), n6);
    output := output + BigEndian(parts.ownerGeneration, 8);
    Shift(output, BigEndian(parts.secretVersion, 8), n7);
    output := output + BigEndian(parts.secretVersion, 8);
    Shift(output, TextBytes(parts.fieldPurpose), n8);
    output := PushText(output, parts.fieldPurpose);
    Shift(output, TextBytes(parts.providerId), n9);
    output := PushText(output, parts.providerId);
    output := output + BigEndian(parts.providerFormatVersion, 4);
  }

  function NewContext(parts: Parts): Result<Context, ValueError> {
    if parts.ownerGeneration == 0 || parts.secretVersion == 0 then Err(Zero)
    else Ok(Context(parts, Encode(parts)))
  }

  // ---- An independent decoder ------------------------------------------------------------------------

  function TakeNumber(bytes: Bytes, width: nat): Option<(nat, Bytes)> {
    if |bytes| < width then None else Some((FromBigEndian(bytes[..width]), bytes[width..]))
  }

  function TakeText(bytes: Bytes): Option<(Bytes, Bytes)> {
    match TakeNumber(bytes, 2)
    case None => None
    case Some((length, rest)) => if |rest| < length then None else Some((rest[..length], rest[length..]))
  }

  function TakeScope(bytes: Bytes): Option<(SecretScope, Bytes)> {
    if bytes == [] then None
    else if bytes[0] == 0 then Some((System, bytes[1..]))
    else if bytes[0] != 1 then None
    else match TakeText(bytes[1..])
      case None => None
      case Some((id, rest)) => Some((Organization(id), rest))
  }

  function TakeHeader(bytes: Bytes): Option<Bytes> {
    if TagBytes() <= bytes then
      match TakeNumber(bytes[|TagBytes()|..], 4)
      case Some((version, rest)) => if version == 1 then Some(rest) else None
      case None => None
    else None
  }

  /** The owner of a secret: its kind, its id and the two counters. */
  function TakeOwner(bytes: Bytes): Option<((Bytes, Bytes, nat, nat), Bytes)> {
    match TakeText(bytes) case None => None case Some((ownerKind, from4)) =>
    match TakeText(from4) case None => None case Some((ownerId, from5)) =>
    match TakeNumber(from5, 8) case None => None case Some((ownerGeneration, from6)) =>
    match TakeNumber(from6, 8) case None => None case Some((secretVersion, from7)) =>
      Some(((ownerKind, ownerId, ownerGeneration, secretVersion), from7))
  }

  function TakePurpose(bytes: Bytes): Option<((Bytes, Bytes, nat), Bytes)> {
    match TakeText(bytes) case None => None case Some((fieldPurpose, from8)) =>
    match TakeText(from8) case None => None case Some((providerId, from9)) =>
    match TakeNumber(from9, 4) case None => None case Some((providerFormatVersion, rest)) =>
      Some(((fieldPurpose, providerId, providerFormatVersion), rest))
  }

  /** Reads one valid context from the front and returns what follows it. */
  function Decode(bytes: Bytes): Option<(Parts, Bytes)> {
    match TakeHeader(bytes) case None => None case Some(from0) =>
    match TakeText(from0) case None => None case Some((installationId, from1)) =>
    match TakeScope(from1) case None => None case Some((scope, from2)) =>
    match TakeText(from2) case None => None case Some((materialId, from3)) =>
    match TakeOwner(from3) case None => None case Some((owner, from7)) =>
    match TakePurpose(from7) case None => None case Some((purpose, rest)) =>
      var parts := Parts(installationId, scope, materialId, owner.0, owner.1, owner.2, owner.3,
                         purpose.0, purpose.1, purpose.2);
      if Valid(parts) then Some((parts, rest)) else None
  }

  lemma NumberTakes(value: nat, width: nat, rest: Bytes)
    requires value < Bound(width)
    ensures TakeNumber(BigEndian(value, width) + rest, width) == Some((value, rest))
  {
  }

  lemma TextTakes(value: Bytes, rest: Bytes)
    requires |value| < 0x1_0000
    ensures TakeText(TextBytes(value) + rest) == Some((value, rest))
  {
    Widths();
    Shift(BigEndian(|value|, 2), value, rest);
    NumberTakes(|value|, 2, value + rest);
  }

  lemma OrganizationTakes(id: Bytes, rest: Bytes)
    requires |id| < 0x1_0000
    ensures TakeScope([1] + (TextBytes(id) + rest)) == Some((Organization(id), rest))
  {
    TextTakes(id, rest);
    assert ([1] + (TextBytes(id) + rest))[1..] == TextBytes(id) + rest;
  }

  lemma ScopeTakes(scope: SecretScope, rest: Bytes)
    requires scope.Organization? ==> |scope.organizationId| < 0x1_0000
    ensures TakeScope(ScopeBytes(scope) + rest) == Some((scope, rest))
  {
    match scope {
      case System =>
        assert ([0] + rest)[1..] == rest;
      case Organization(id) =>
        OrganizationTakes(id, rest);
        Shift([1], TextBytes(id), rest);
    }
  }

  lemma OwnerTakes(parts: Parts, rest: Bytes)
    requires Valid(parts)
    ensures TakeOwner(OwnerThen(parts, rest))
         == Some(((parts.ownerKind, parts.ownerId, parts.ownerGeneration, parts.secretVersion), rest))
  {
    Widths();
    var from6 := BigEndian(parts.secretVersion, 8) + rest;
    var from5 := BigEndian(parts.ownerGeneration, 8) + from6;
    var from4 := TextBytes(parts.ownerId) + from5;
    NumberTakes(parts.secretVersion, 8, rest);
    NumberTakes(parts.ownerGeneration, 8, from6);
    TextTakes(parts.ownerId, from5);
    TextTakes(parts.ownerKind, from4);
  }

  lemma PurposeTakes(parts: Parts, rest: Bytes)
    requires Valid(parts)
    ensures TakePurpose(PurposeThen(parts, rest))
         == Some(((parts.fieldPurpose, parts.providerId, parts.providerFormatVersion), rest))
  {
    Widths();
    var from9 := BigEndian(parts.providerFormatVersion, 4) + rest;
    var from8 := TextBytes(parts.providerId) + from9;
    NumberTakes(parts.providerFormatVersion, 4, rest);
    TextTakes(parts.providerId, from9);
    TextTakes(parts.fieldPurpose, from8);
  }

  /** Whatever follows the bytes of a context, the decoder recovers every field and exactly that remainder. */
  lemma DecodeRecoversEveryField(parts: Parts, rest: Bytes)
    requires Valid(parts)
    ensures Decode(Encode(parts) + rest) == Some((parts, rest))
  {
    EncodeThenAppends(parts, rest);
    var from3 := OwnerThen(parts, PurposeThen(parts, rest));
    var from2 := TextBytes(parts.materialId) + from3;
    var from1 := ScopeBytes(parts.scope) + from2;
    PurposeTakes(parts, rest);
    OwnerTakes(parts, PurposeThen(parts, rest));
    TextTakes(parts.materialId, from3);
    ScopeTakes(parts.scope, from2);
    TextTakes(parts.installationId, from1);
    HeaderTakes(TextBytes(parts.installationId) + from1);
  }

  lemma HeaderTakes(rest: Bytes)
    ensures TakeHeader(TagBytes() + (BigEndian(1, 4) + rest)) == Some(rest)
  {
    Widths();
    NumberTakes(1, 4, rest);
    var tag := TagBytes();
    assert (tag + (BigEndian(1, 4) + rest))[|tag|..] == BigEndian(1, 4) + rest;
  }

  /** Equal bytes mean equal contexts, and no context's bytes begin another's. */
  lemma EncodingIsInjectiveAndPrefixFree(a: Parts, b: Parts)
    requires Valid(a) && Valid(b)
    requires Encode(a) <= Encode(b)
    ensures a == b
  {
    var rest := Encode(b)[|Encode(a)|..];
    assert Encode(b) == Encode(a) + rest;
    assert Encode(b) + [] == Encode(b);
    DecodeRecoversEveryField(a, rest);
    DecodeRecoversEveryField(b, []);
  }

  /** A context is rejected only for a zero generation or version; others are identified by their bytes. */
  lemma ContextsAreIdentifiedByTheirBytes(a: Parts, b: Parts)
    requires Valid(a) && Valid(b) && NewContext(b).Ok?
    ensures NewContext(a).Ok? && NewContext(a).value.canonical <= NewContext(b).value.canonical <==> a == b
    ensures NewContext(a).Err? <==> a.ownerGeneration == 0 || a.secretVersion == 0
    ensures NewContext(a).Err? ==> NewContext(a).error == Zero
    ensures NewContext(a).Ok? ==> NewContext(a).value == Context(a, Encode(a))
  {
    if NewContext(a).Ok? && Encode(a) <= Encode(b) {
      EncodingIsInjectiveAndPrefixFree(a, b);
    }
  }

  lemma NumberWasTaken(bytes: Bytes, width: nat)
    requires TakeNumber(bytes, width).Some?
    ensures var (value, rest) := TakeNumber(bytes, width).value;
            bytes == BigEndian(value, width) + rest && value < Bound(width)
  {
    BytesWriteBack(bytes[..width]);
  }

  lemma TextWasTaken(bytes: Bytes)
    requires TakeText(bytes).Some?
    ensures var (value, rest) := TakeText(bytes).value; bytes == TextBytes(value) + rest
  {
    NumberWasTaken(bytes, 2);
  }

  lemma ScopeWasTaken(bytes: Bytes)
    requires TakeScope(bytes).Some?
    ensures var (scope, rest) := TakeScope(bytes).value; bytes == ScopeBytes(scope) + rest
  {
    if bytes[0] == 1 {
      TextWasTaken(bytes[1..]);
    }
  }

  /** The encoding is canonical: the bytes that decode to a context are its own encoding, no others. */
  lemma OnlyCanonicalBytesDecode(bytes: Bytes)
    requires Decode(bytes).Some?
    ensures var (parts, rest) := Decode(bytes).value; Valid(parts) && bytes == Encode(parts) + rest
  {
    var (parts, rest) := Decode(bytes).value;
    EncodeThenAppends(parts, rest);
    var from0 := TakeHeader(bytes).value;
    NumberWasTaken(bytes[|TagBytes()|..], 4);
    TextWasTaken(from0);
    var from1 := TakeText(from0).value.1;
    ScopeWasTaken(from1);
    var from2 := TakeScope(from1).value.1;
    TextWasTaken(from2);
    var from3 := TakeText(from2).value.1;
    TextWasTaken(from3);
    var from4 := TakeText(from3).value.1;
    TextWasTaken(from4);
    var from5 := TakeText(from4).value.1;
    NumberWasTaken(from5, 8);
    var from6 := TakeNumber(from5, 8).value.1;
    NumberWasTaken(from6, 8);
    var from7 := TakeNumber(from6, 8).value.1;
    TextWasTaken(from7);
    var from8 := TakeText(from7).value.1;
    TextWasTaken(from8);
    NumberWasTaken(TakeText(from8).value.1, 4);
  }

  // ---- The header and the constructors ---------------------------------------------------------------------

  /** Every context begins with the tag in ASCII, a zero byte and the version one in four bytes. */
  lemma EveryContextBeginsWithItsHeader(parts: Parts)
    ensures |Encode(parts)| > 41
    ensures forall i :: 0 <= i < 36 ==> Encode(parts)[i] == "OWLRORA_CONFIGURATION_SECRET_CONTEXT"[i] as int
    ensures Encode(parts)[36..41] == [0, 0, 0, 0, 1]
  {
    OneIsFourBytes();
    HeaderComesFirst(parts);
    var tag := TagBytes();
    assert Encode(parts)[..37] == tag && Encode(parts)[37..41] == [0, 0, 0, 1];
    assert forall i :: 0 <= i < 37 ==> Encode(parts)[i] == tag[i];
  }

  lemma OneIsFourBytes()
    ensures BigEndian(1, 4) == [0, 0, 0, 1]
  {
    assert BigEndian(0, 1) == [0] && BigEndian(0, 2) == [0, 0] && BigEndian(0, 3) == [0, 0, 0];
  }

  lemma HeaderComesFirst(parts: Parts)
    ensures TagBytes() + BigEndian(1, 4) <= Encode(parts) && |Encode(parts)| > 41
  {
  }

  predicate IsCreated(value: Bytes, max: nat, allowed: Byte -> bool) {
    NewIdentifier(value, max, allowed) == Ok(value)
  }

  /** Parts are valid exactly when every identifier's constructor accepts it and every number fits its width. */
  lemma PartsAreValidExactlyWhenCreated(parts: Parts)
    ensures Valid(parts) <==>
            && IsCreated(parts.installationId, 128, IdentifierByte)
            && (parts.scope == System || IsCreated(parts.scope.organizationId, 128, IdentifierByte))
            && IsCreated(parts.materialId, 128, IdentifierByte) && IsCreated(parts.ownerKind, 64, IdentifierByte)
            && IsCreated(parts.ownerId, 128, IdentifierByte) && IsCreated(parts.fieldPurpose, 64, IdentifierByte)
            && IsCreated(parts.providerId, 128, ProviderByte)
            && FromBigEndian(BigEndian(parts.ownerGeneration, 8)) == parts.ownerGeneration
            && FromBigEndian(BigEndian(parts.secretVersion, 8)) == parts.secretVersion
            && FromBigEndian(BigEndian(parts.providerFormatVersion, 4)) == parts.providerFormatVersion
            && parts.providerFormatVersion != 0
  {
    Widths();
    FitsExactlyWhenRecovered(parts.ownerGeneration, 8);
    FitsExactlyWhenRecovered(parts.secretVersion, 8);
    FitsExactlyWhenRecovered(parts.providerFormatVersion, 4);
  }

  lemma FitsExactlyWhenRecovered(value: nat, width: nat)
    ensures value < Bound(width) <==> FromBigEndian(BigEndian(value, width)) == value
  {
    BytesWriteBack(BigEndian(value, width));
    if value < Bound(width) {
      NumberReadsBack(value, width);
    }
  }

  /** In ASCII codes: which bytes an identifier may hold, and which the name of a provider. */
  lemma AllowedBytesExactlyWhen(b: Byte)
    ensures IdentifierByte(b) <==> 45 <= b <= 58 || 65 <= b <= 90 || b == 95 || 97 <= b <= 122
    ensures ProviderByte(b) <==> b == 45 || b == 46 || 48 <= b <= 57 || b == 95 || 97 <= b <= 122
  {
  }
}
