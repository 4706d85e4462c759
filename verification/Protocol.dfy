/** The protocol messages the request handlers read and fill, as values. */
module Protocol {
  import opened Base
  import opened Scalars

  // ---- values and declared functions -----------------------------------------------------------

  /** A declared or tagged type; `Other` is any number the SDK does not know. */
  datatype ValueType = Unspecified | BoolType | Int64Type | Uint64Type | DoubleType | StringType | BytesType
    | OtherType(code: int)

  /** The oneof field a value carries, if any. */
  datatype Field = NotSet | BoolField(b: bool) | Int64Field(i: int) | Uint64Field(u: nat) | DoubleField(f: Float)
    | StringField(s: string) | BytesField(bytes: string)

  datatype Value = Value(tag: ValueType, field: Field) {
    // Protobuf getters: the field when it is the one set, else the type's default.
    function Double(): Float { if field.DoubleField? then field.f else Finite(0.0) }
    function Int64(): int { if field.Int64Field? then field.i else 0 }
    function Uint64(): nat { if field.Uint64Field? then field.u else 0 }
    function Text(): string { if field.StringField? then field.s else "" }
  }

  type ValueMap = map<string, Value>

  datatype ArgSpec = ArgSpec(
    name: string,
    argType: ValueType,
    required: bool,
    minDouble: Option<Float>,
    maxDouble: Option<Float>,
    minInt64: Option<int>,
    maxInt64: Option<int>,
    minUint64: Option<nat>,
    maxUint64: Option<nat>,
    allowed: seq<string>)

  datatype FunctionSpec = FunctionSpec(id: nat, name: string, args: seq<ArgSpec>)

  datatype Code = Ok | InvalidArgument | NotFound | FailedPrecondition | DeadlineExceeded | ResourceExhausted
    | OutOfRange | Unimplemented | Internal | OtherCode(number: int)

  // ---- requests ----------------------------------------------------------------------------------

  datatype Timestamp = Timestamp(seconds: int, nanos: int)

  datatype CallRequest = CallRequest(
    deviceId: string,
    functionId: nat,
    functionName: string,
    args: ValueMap,
    deadline: Option<Timestamp>)

  datatype ReadRequest = ReadRequest(deviceId: string, signalIds: seq<string>, minTimestamp: Option<Timestamp>)

  datatype Body =
    | Hello(protocolVersion: string)
    | WaitReady(maxWaitMs: nat)
    | ListDevices(includeHealth: bool)
    | DescribeDevice(deviceId: string)
    | ReadSignals(read: ReadRequest)
    | Call(call: CallRequest)
    | GetHealth
    | NoBody

  /** Request ids are 64-bit. */
  type RequestId = n: int | 0 <= n < 0x1_0000_0000_0000_0000

  datatype Request = Request(id: RequestId, body: Body)

  // ---- responses -----------------------------------------------------------------------------------

  datatype Quality = QualityOk | QualityStale | OtherQuality(number: int)

  datatype SignalValue = SignalValue(signalId: string, quality: Quality, timestamp: Timestamp, reading: Value)

  datatype Payload =
    | NoPayload
    | HelloPayload(protocolVersion: string, name: string, version: string, metadata: map<string, string>)
    | WaitReadyPayload
    | DevicesPayload
    | DevicePayload(describedId: string)
    | SignalsPayload(readId: string, values: seq<SignalValue>)
    | CallPayload(calledId: string, results: ValueMap)
    | HealthPayload

  /** A response, less its message texts; `sideEffects` is the status detail of that name. */
  datatype Reply = Reply(id: RequestId, code: Code, sideEffects: bool, payload: Payload)
}
