/**
 * The byte-coded enumerations of the wire format. Every `...Of` conversion is total and remembers
 * the byte it was given. The way back is exact precisely on the canonical values: a catch-all variant
 * holding a byte that already has a name is printable but not reproducible.
 */
module Codes {
  import opened Wire

  // ------------------------------------------------------------ protocol version

  datatype ProtocolVersion =
    | Reserved | V2010 | V2012 | V2019 | ReservedFuture(raw: u8) | IdentificationRequest
  {
    function Byte(): u8 {
      match this
      case Reserved => 0x00
      case V2010 => 0x01
      case V2012 => 0x02
      case V2019 => 0x03
      case ReservedFuture(v) => v
      case IdentificationRequest => 0xFF
    }

    /** The value the second header byte must carry. */
    function Inverse(): (r: u8)
      ensures r + Byte() == 0xFF
    {
      match this
      case Reserved => 0xFF
      case V2010 => 0xFE
      case V2012 => 0xFD
      case V2019 => 0xFC
      case ReservedFuture(v) => 0xFF - v
      case IdentificationRequest => 0x00
    }

    predicate Canonical() {
      ReservedFuture? ==> 0x04 <= raw <= 0xFE
    }
  }

  function VersionOf(b: u8): (r: ProtocolVersion)
    ensures r.Byte() == b && r.Canonical()
  {
    match b
    case 0x00 => ProtocolVersion.Reserved
    case 0x01 => V2010
    case 0x02 => V2012
    case 0x03 => V2019
    case 0xFF => IdentificationRequest
    case _ => ReservedFuture(b)
  }

  lemma VersionBack(v: ProtocolVersion)
    ensures VersionOf(v.Byte()) == v <==> v.Canonical()
  {
  }

  // ---------------------------------------------------------------- payload type

  function PayloadTypeWord(t: PayloadType): u16 {
    match t
    case NegativeAcknowledge => 0x0000
    case VehicleIdentificationRequest => 0x0001
    case VehicleIdentificationRequestWithEID => 0x0002
    case VehicleIdentificationRequestWithVIN => 0x0003
    case VehicleAnnouncement => 0x0004
    case RoutingActivationRequest => 0x0005
    case RoutingActivationResponse => 0x0006
    case AliveCheckRequest => 0x0007
    case AliveCheckResponse => 0x0008
    case EntityStatusRequest => 0x4001
    case EntityStatusResponse => 0x4002
    case PowerModeInfoRequest => 0x4003
    case PowerModeInfoResponse => 0x4004
    case DiagnosticMessage => 0x8001
    case DiagnosticMessagePositiveAcknowledge => 0x8002
    case DiagnosticMessageNegativeAcknowledge => 0x8003
    case Reserved(v) => v
    case ReservedVehicleManufacturer(v) => v
  }

  predicate NamedPayloadType(w: u16) {
    w <= 0x0008 || 0x4001 <= w <= 0x4004 || 0x8001 <= w <= 0x8003
  }

  predicate CanonicalPayloadType(t: PayloadType) {
    match t
    case Reserved(v) => !NamedPayloadType(v) && v < 0xF000
    case ReservedVehicleManufacturer(v) => v >= 0xF000
    case _ => true
  }

  function PayloadTypeOf(w: u16): (r: PayloadType)
    ensures PayloadTypeWord(r) == w && CanonicalPayloadType(r)
  {
    match w
    case 0x0000 => NegativeAcknowledge
    case 0x0001 => VehicleIdentificationRequest
    case 0x0002 => VehicleIdentificationRequestWithEID
    case 0x0003 => VehicleIdentificationRequestWithVIN
    case 0x0004 => VehicleAnnouncement
    case 0x0005 => RoutingActivationRequest
    case 0x0006 => RoutingActivationResponse
    case 0x0007 => AliveCheckRequest
    case 0x0008 => AliveCheckResponse
    case 0x4001 => EntityStatusRequest
    case 0x4002 => EntityStatusResponse
    case 0x4003 => PowerModeInfoRequest
    case 0x4004 => PowerModeInfoResponse
    case 0x8001 => DiagnosticMessage
    case 0x8002 => DiagnosticMessagePositiveAcknowledge
    case 0x8003 => DiagnosticMessageNegativeAcknowledge
    case _ => if w >= 0xF000 then ReservedVehicleManufacturer(w) else PayloadType.Reserved(w)
  }

  lemma PayloadTypeBack(t: PayloadType)
    ensures PayloadTypeOf(PayloadTypeWord(t)) == t <==> CanonicalPayloadType(t)
  {
  }

  // ------------------------------------------------------------------ NACK codes

  datatype NackCode =
    | IncorrectPatternFormat | UnknownPayloadType | MessageTooLarge | OutOfMemory
    | InvalidPayloadLength | Reserved(raw: u8)
  {
    function Byte(): u8 {
      match this
      case IncorrectPatternFormat => 0x00
      case UnknownPayloadType => 0x01
      case MessageTooLarge => 0x02
      case OutOfMemory => 0x03
      case InvalidPayloadLength => 0x04
      case Reserved(v) => v
    }

    predicate Canonical() {
      Reserved? ==> raw > 0x04
    }
  }

  function NackCodeOf(b: u8): (r: NackCode)
    ensures r.Byte() == b && r.Canonical()
  {
    match b
    case 0x00 => IncorrectPatternFormat
    case 0x01 => UnknownPayloadType
    case 0x02 => MessageTooLarge
    case 0x03 => NackCode.OutOfMemory
    case 0x04 => InvalidPayloadLength
    case _ => NackCode.Reserved(b)
  }

  // -------------------------------------------------------- diagnostic ack codes

  datatype DiagnosticAckCode =
    | RoutingConfirmationAck | Reserved(raw: u8) | InvalidSourceAddress | UnknownTargetAddress
    | DiagnosticMessageTooLarge | OutOfMemory | TargetUnreachable | UnknownNetwork | TransportProtocolError
  {
    function Byte(): u8 {
      match this
      case RoutingConfirmationAck => 0x00
      case Reserved(v) => v
      case InvalidSourceAddress => 0x02
      case UnknownTargetAddress => 0x03
      case DiagnosticMessageTooLarge => 0x04
      case OutOfMemory => 0x05
      case TargetUnreachable => 0x06
      case UnknownNetwork => 0x07
      case TransportProtocolError => 0x08
    }

    predicate IsPositive() {
      RoutingConfirmationAck?
    }

    predicate Canonical() {
      Reserved? ==> raw == 0x01 || raw > 0x08
    }
  }

  function DiagnosticAckCodeOf(b: u8): (r: DiagnosticAckCode)
    ensures r.Byte() == b && r.Canonical()
    ensures r.IsPositive() <==> b == 0
  {
    match b
    case 0x00 => RoutingConfirmationAck
    case 0x02 => InvalidSourceAddress
    case 0x03 => UnknownTargetAddress
    case 0x04 => DiagnosticMessageTooLarge
    case 0x05 => DiagnosticAckCode.OutOfMemory
    case 0x06 => TargetUnreachable
    case 0x07 => UnknownNetwork
    case 0x08 => TransportProtocolError
    case _ => DiagnosticAckCode.Reserved(b)
  }

  // ------------------------------------------------------------------ node types

  datatype NodeType = Gateway | Node | Reserved(raw: u8) {
    function Byte(): u8 {
      match this
      case Gateway => 0x00
      case Node => 0x01
      case Reserved(v) => v
    }

    predicate Canonical() {
      Reserved? ==> raw >= 0x02
    }
  }

  function NodeTypeOf(b: u8): (r: NodeType)
    ensures r.Byte() == b && r.Canonical()
  {
    match b
    case 0x00 => Gateway
    case 0x01 => Node
    case _ => NodeType.Reserved(b)
  }

  // ------------------------------------------------------------------ power mode

  datatype PowerMode = NotReady | Ready | NotSupported | Reserved(raw: u8) {
    function Byte(): u8 {
      match this
      case NotReady => 0x00
      case Ready => 0x01
      case NotSupported => 0x02
      case Reserved(v) => v
    }

    predicate Canonical() {
      Reserved? ==> raw > 0x02
    }
  }

  function PowerModeOf(b: u8): (r: PowerMode)
    ensures r.Byte() == b && r.Canonical()
  {
    match b
    case 0x00 => NotReady
    case 0x01 => Ready
    case 0x02 => NotSupported
    case _ => PowerMode.Reserved(b)
  }

  // ------------------------------------------------------------ activation types

  datatype ActivationType =
    | Default | RegulationRequired | Reserved(raw: u8) | CentralSecurity | ManufacturerSpecific(raw: u8)
  {
    function Byte(): u8 {
      match this
      case Default => 0x00
      case RegulationRequired => 0x01
      case CentralSecurity => 0xE0
      case Reserved(v) => v
      case ManufacturerSpecific(v) => v
    }

    predicate Canonical() {
      (Reserved? ==> 0x02 <= raw <= 0xDF) && (ManufacturerSpecific? ==> raw > 0xE0)
    }
  }

  function ActivationTypeOf(b: u8): (r: ActivationType)
    ensures r.Byte() == b && r.Canonical()
  {
    if b == 0x00 then Default
    else if b == 0x01 then RegulationRequired
    else if b <= 0xDF then ActivationType.Reserved(b)
    else if b == 0xE0 then CentralSecurity
    else ActivationType.ManufacturerSpecific(b)
  }

  // ---------------------------------------------------- routing activation codes

  datatype ActivationCode =
    | DeniedUnknownSourceAddress
    | DeniedAllTcpSocketsRegisteredAndActive
    | DeniedSourceAddressAlreadyActivated
    | DeniedSourceAddressAlreadyRegistered
    | DeniedMissingAuthentication
    | DeniedRejectedConfirmation
    | DeniedUnsupportedRoutingActivationType
    | DeniedEncryptedConnectionViaTLSRequired
    | Reserved(raw: u8)
    | RoutingSuccessfullyActivated
    | RoutingSuccessfullyActivatedConfirmationRequired
    | ManufacturerSpecific(raw: u8)
  {
    function Byte(): u8 {
      match this
      case DeniedUnknownSourceAddress => 0x00
      case DeniedAllTcpSocketsRegisteredAndActive => 0x01
      case DeniedSourceAddressAlreadyActivated => 0x02
      case DeniedSourceAddressAlreadyRegistered => 0x03
      case DeniedMissingAuthentication => 0x04
      case DeniedRejectedConfirmation => 0x05
      case DeniedUnsupportedRoutingActivationType => 0x06
      case DeniedEncryptedConnectionViaTLSRequired => 0x07
      case RoutingSuccessfullyActivated => 0x10
      case RoutingSuccessfullyActivatedConfirmationRequired => 0x11
      case Reserved(v) => v
      case ManufacturerSpecific(v) => v
    }

    predicate Canonical() {
      && (Reserved? ==> 0x08 <= raw <= 0x0F || 0x12 <= raw <= 0xDF || raw == 0xFF)
      && (ManufacturerSpecific? ==> 0xE0 <= raw <= 0xFE)
    }
  }

  function ActivationCodeOf(b: u8): (r: ActivationCode)
    ensures r.Byte() == b && r.Canonical()
  {
    match b
    case 0x00 => DeniedUnknownSourceAddress
    case 0x01 => DeniedAllTcpSocketsRegisteredAndActive
    case 0x02 => DeniedSourceAddressAlreadyActivated
    case 0x03 => DeniedSourceAddressAlreadyRegistered
    case 0x04 => DeniedMissingAuthentication
    case 0x05 => DeniedRejectedConfirmation
    case 0x06 => DeniedUnsupportedRoutingActivationType
    case 0x07 => DeniedEncryptedConnectionViaTLSRequired
    case 0x10 => RoutingSuccessfullyActivated
    case 0x11 => RoutingSuccessfullyActivatedConfirmationRequired
    case _ =>
      if 0xE0 <= b <= 0xFE then ActivationCode.ManufacturerSpecific(b) else ActivationCode.Reserved(b)
  }

  // --------------------------------------------- announcement status byte codes

  datatype FurtherAction =
    | NoFurtherAction | Reserved(raw: u8) | CentralSecurityActivationRequired | ManufacturerSpecific(raw: u8)
  {
    function Byte(): u8 {
      match this
      case NoFurtherAction => 0x00
      case CentralSecurityActivationRequired => 0x10
      case Reserved(v) => v
      case ManufacturerSpecific(v) => v
    }

    predicate Canonical() {
      (Reserved? ==> 0x01 <= raw <= 0x0F) && (ManufacturerSpecific? ==> raw > 0x10)
    }
  }

  function FurtherActionOf(b: u8): (r: FurtherAction)
    ensures r.Byte() == b && r.Canonical()
  {
    if b == 0x00 then NoFurtherAction
    else if b <= 0x0F then FurtherAction.Reserved(b)
    else if b == 0x10 then CentralSecurityActivationRequired
    else FurtherAction.ManufacturerSpecific(b)
  }

  datatype SyncStatus = Synchronized | Reserved(raw: u8) | NotSynchronized {
    function Byte(): u8 {
      match this
      case Synchronized => 0x00
      case NotSynchronized => 0x10
      case Reserved(v) => v
    }

    predicate Canonical() {
      Reserved? ==> raw != 0x00 && raw != 0x10
    }
  }

  function SyncStatusOf(b: u8): (r: SyncStatus)
    ensures r.Byte() == b && r.Canonical()
  {
    match b
    case 0x00 => Synchronized
    case 0x10 => NotSynchronized
    case _ => SyncStatus.Reserved(b)
  }
}
