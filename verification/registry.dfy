/** The property registry of MQTT v5 (section 2.2.2.2 of the OASIS MQTT
    Version 5.0 standard): which codes name a property, what kind of value
    each carries, the dense index the registries are kept under, and in
    which control packets each may appear. */
module Registry {
  import opened Wire
  import opened Header

  /** `PropertyType`. */
  const BadProperty: nat := 0x00
  const PayloadFormat: nat := 0x01
  const MessageExpiryInterval: nat := 0x02
  const ContentType: nat := 0x03
  const ResponseTopic: nat := 0x08
  const CorrelationData: nat := 0x09
  const SubscriptionID: nat := 0x0B
  const SessionExpiryInterval: nat := 0x11
  const AssignedClientID: nat := 0x12
  const ServerKeepAlive: nat := 0x13
  const AuthenticationMethod: nat := 0x15
  const AuthenticationData: nat := 0x16
  const RequestProblemInfo: nat := 0x17
  const WillDelayInterval: nat := 0x18
  const RequestResponseInfo: nat := 0x19
  const ResponseInfo: nat := 0x1A
  const ServerReference: nat := 0x1C
  const ReasonString: nat := 0x1F
  const ReceiveMax: nat := 0x21
  const TopicAliasMax: nat := 0x22
  const TopicAlias: nat := 0x23
  const QoSMax: nat := 0x24
  const RetainAvailable: nat := 0x25
  const UserProperty: nat := 0x26
  const PacketSizeMax: nat := 0x27
  const WildcardSubAvailable: nat := 0x28
  const SubIDAvailable: nat := 0x29
  const SharedSubAvailable: nat := 0x2A
  const MaxUsedPropertyType: nat := 0x2B

  /** `PrivateRegistry::PropertiesCount`. */
  const PropertiesCount: nat := 27

  /** The value kinds a property carries: big-endian integers of one, two
      or four bytes, a Variable Byte Integer, a string, binary data or a
      string pair. */
  datatype Kind = U8Kind | U16Kind | U32Kind | VarKind | TextKind | BinaryKind | PairKind

  /** The kind each code is declared with by its `TypedProperty` typedef
      and by the visitor the view registry installs for it; `None` for a
      code no property uses. */
  function KindOf(code: nat): Option<Kind>
  {
    if code == PayloadFormat || code == RequestProblemInfo || code == RequestResponseInfo
       || code == QoSMax || code == RetainAvailable || code == WildcardSubAvailable
       || code == SubIDAvailable || code == SharedSubAvailable then Some(U8Kind)
    else if code == ServerKeepAlive || code == ReceiveMax || code == TopicAliasMax
       || code == TopicAlias then Some(U16Kind)
    else if code == MessageExpiryInterval || code == SessionExpiryInterval
       || code == WillDelayInterval || code == PacketSizeMax then Some(U32Kind)
    else if code == SubscriptionID then Some(VarKind)
    else if code == ContentType || code == ResponseTopic || code == AssignedClientID
       || code == AuthenticationMethod || code == ResponseInfo || code == ServerReference
       || code == ReasonString then Some(TextKind)
    else if code == CorrelationData || code == AuthenticationData then Some(BinaryKind)
    else if code == UserProperty then Some(PairKind)
    else None
  }

  /** `invPropertyMap`, indexed by code below `MaxUsedPropertyType`. */
  const InvPropertyMap: seq<nat> :=
    [27, 0, 1, 2, 27, 27, 27, 27, 3, 4, 27, 5, 27, 27, 27, 27, 27, 6, 7, 8, 27, 9,
     10, 11, 12, 13, 14, 27, 15, 27, 27, 16, 27, 17, 18, 19, 20, 21, 22, 23, 24, 25, 26]

  /** The dense index of a code, `PropertiesCount` for any code with no
      property, as `getVisitorForProperty` and `getPropertyName` look it
      up (codes at or above `MaxUsedPropertyType` are refused before the
      lookup). */
  function PropertyIndex(code: nat): (i: nat)
    ensures i <= PropertiesCount
  {
    if code >= MaxUsedPropertyType then PropertiesCount else InvPropertyMap[code]
  }

  /** The codes in index order: the order of `propertyMap` and of the view
      registry's `properties` array. */
  const CodeOfIndex: seq<nat> :=
    [0x01, 0x02, 0x03, 0x08, 0x09, 0x0B, 0x11, 0x12, 0x13, 0x15, 0x16, 0x17, 0x18, 0x19,
     0x1A, 0x1C, 0x1F, 0x21, 0x22, 0x23, 0x24, 0x25, 0x26, 0x27, 0x28, 0x29, 0x2A]

  /** The map has an index exactly for the codes that name a property, and
      the index is a bijection onto 0 .. 26 whose inverse is `CodeOfIndex`. */
  lemma PropertyIndexBijective(code: nat)
    ensures PropertyIndex(code) < PropertiesCount <==> KindOf(code).Some?
    ensures PropertyIndex(code) < PropertiesCount ==> CodeOfIndex[PropertyIndex(code)] == code
  {
    if KindOf(code).Some? {
      KnownCodeIndex(code);
    } else {
      UnknownCodeIndex(code);
    }
  }

  /** Helper: a code that names a property has its own index. */
  lemma KnownCodeIndex(code: nat)
    requires KindOf(code).Some?
    ensures PropertyIndex(code) < PropertiesCount && CodeOfIndex[PropertyIndex(code)] == code
  {
    assert code in CodeOfIndex;
    var i :| 0 <= i < |CodeOfIndex| && CodeOfIndex[i] == code;
    CodeOfIndexInverse(i);
  }

  /** Helper: any other code has none. */
  lemma UnknownCodeIndex(code: nat)
    requires KindOf(code).None?
    ensures PropertyIndex(code) == PropertiesCount
  {
    if code < MaxUsedPropertyType {
      assert code in {0x00, 0x04, 0x05, 0x06, 0x07, 0x0A, 0x0C, 0x0D, 0x0E, 0x0F, 0x10, 0x14, 0x1B, 0x1D, 0x1E, 0x20};
    }
  }

  /** ... and every index is reached. */
  lemma CodeOfIndexInverse(i: nat)
    requires i < PropertiesCount
    ensures PropertyIndex(CodeOfIndex[i]) == i
  {
  }

  /** `propertyMap`, in index order. */
  const PropertyNames: seq<string> :=
    ["PayloadFormat", "MessageExpiryInterval", "ContentType", "ResponseTopic", "CorrelationData",
     "SubscriptionID", "SessionExpiryInterval", "AssignedClientID", "ServerKeepAlive",
     "AuthenticationMethod", "AuthenticationData", "RequestProblemInfo", "WillDelayInterval",
     "RequestResponseInfo", "ResponseInfo", "ServerReference", "ReasonString", "ReceiveMax",
     "TopicAliasMax", "TopicAlias", "QoSMax", "RetainAvailable", "UserProperty", "PacketSizeMax",
     "WildcardSubAvailable", "SubIDAvailable", "SharedSubAvailable"]

  /** `getPropertyName`: null (`None`) for codes with no property. */
  function PropertyName(code: nat): (r: Option<string>)
    ensures r.Some? <==> KindOf(code).Some?
    ensures r.Some? ==> r.value == PropertyNames[PropertyIndex(code)]
  {
    PropertyIndexBijective(code);
    if code >= MaxUsedPropertyType then None
    else
      var index := InvPropertyMap[code];
      if index == PropertiesCount then None else Some(PropertyNames[index])
  }

  /** `ExpectedProperty<type>::AllowedMask`, as the set of the packet
      types whose bit (`1 << ctype`) is set. Type 0 (RESERVED) stands for
      the will properties of a CONNECT payload; `0xFFFF` is every type. */
  function AllowedTypes(code: nat): (m: set<nat>)
    ensures forall t :: t in m ==> t < 16
  {
    if code in {PayloadFormat, MessageExpiryInterval, ContentType, ResponseTopic, CorrelationData}
      then {PUBLISH, 0}
    else if code == TopicAlias then {PUBLISH}
    else if code == WillDelayInterval then {0}
    else if code == SubscriptionID then {PUBLISH, SUBSCRIBE}
    else if code == SessionExpiryInterval then {CONNECT, CONNACK, DISCONNECT}
    else if code in {AuthenticationMethod, AuthenticationData} then {CONNECT, CONNACK, AUTH}
    else if code in {ReceiveMax, TopicAliasMax, PacketSizeMax} then {CONNECT, CONNACK}
    else if code in {RequestProblemInfo, RequestResponseInfo} then {CONNECT}
    else if code in {AssignedClientID, ServerKeepAlive, QoSMax, RetainAvailable, WildcardSubAvailable,
                     SubIDAvailable, SharedSubAvailable, ResponseInfo} then {CONNACK}
    else if code == ServerReference then {CONNACK, DISCONNECT}
    else if code == ReasonString then
      {CONNACK, PUBACK, PUBREC, PUBREL, PUBCOMP, SUBACK, UNSUBACK, DISCONNECT, AUTH}
    else if code == UserProperty then {0, 1, 2, 3, 4, 5, 6, 7, 8, 9, 10, 11, 12, 13, 14, 15}
    else {}
  }

  /** `isAllowedProperty`: false for code 0 and for codes at or above
      `MaxUsedPropertyType`, otherwise whether the bit of `ctype` is set. */
  predicate IsAllowed(code: nat, ctype: nat)
  {
    if code == 0 || code >= MaxUsedPropertyType then false
    else ctype in AllowedTypes(code)
  }

  /** Only a code that names a property is allowed anywhere. */
  lemma AllowedOnlyKnown(code: nat, ctype: nat)
    ensures IsAllowed(code, ctype) ==> KindOf(code).Some?
  {
  }

  /** Code 0, every code from 0x2B up and undefined codes such as 0x04 are
      allowed nowhere, ... */
  lemma AllowedNowhere(code: nat, ctype: nat)
    requires code == BadProperty || code >= MaxUsedPropertyType || code == 0x04
    ensures !IsAllowed(code, ctype)
  {
  }

  /** ... and a User Property is allowed in every packet type. */
  lemma UserPropertyEverywhere(ctype: nat)
    requires ctype < 16
    ensures IsAllowed(UserProperty, ctype)
  {
  }

  /** An Assigned Client Identifier is allowed in CONNACK and nowhere else. */
  lemma AssignedClientIDOnlyInConnAck(ctype: nat)
    ensures IsAllowed(AssignedClientID, ctype) <==> ctype == CONNACK
  {
  }

  /** The will properties (bit 0) are exactly the five message properties
      shared with PUBLISH and the Will Delay Interval. */
  lemma WillProperties(code: nat)
    ensures IsAllowed(code, RESERVED) <==>
      code in {PayloadFormat, MessageExpiryInterval, ContentType, ResponseTopic, CorrelationData,
               WillDelayInterval, UserProperty}
  {
  }
}
