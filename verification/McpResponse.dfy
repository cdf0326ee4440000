/** What leaves the adapter: every number is safe for a double-based reader, and
    every frame fits the reader on the other side. */
module McpResponse {
  import opened Common
  import opened McpFraming

  const MAX_SAFE_INTEGER: int := 9_007_199_254_740_991

  /** A JSON number as serde_json holds it: a 64-bit integer or a finite double. */
  datatype Number = Integer(n: int) | Float(x: real)

  datatype Value =
    | Null
    | Bool(b: bool)
    | Num(num: Number)
    | String(s: string)
    | Array(items: seq<Value>)
    | Object(members: seq<Member>)

  datatype Member = Member(name: string, value: Value)

  predicate IntegralBelowLimit(x: real) {
    x.Floor as real == x && -9_007_199_254_740_992.0 < x < 9_007_199_254_740_992.0
  }

  predicate ValidRpcId(value: Value) {
    match value
    case String(_) => true
    case Null => true
    case Num(Integer(n)) => -MAX_SAFE_INTEGER <= n <= MAX_SAFE_INTEGER
    case Num(Float(x)) => IntegralBelowLimit(x)
    case _ => false
  }

  predicate SafeNumber(num: Number) {
    match num
    case Integer(n) => -MAX_SAFE_INTEGER <= n <= MAX_SAFE_INTEGER
    case Float(x) => x.Floor as real != x || (-9_007_199_254_740_992.0 < x < 9_007_199_254_740_992.0)
  }

  predicate NumbersAreSafe(value: Value) {
    match value
    case Num(num) => SafeNumber(num)
    case Array(items) => forall k :: 0 <= k < |items| ==> NumbersAreSafe(items[k])
    case Object(members) => forall k :: 0 <= k < |members| ==> NumbersAreSafe(members[k].value)
    case _ => true
  }

  /** Some number anywhere inside a value. */
  ghost predicate Contains(value: Value, num: Number) {
    match value
    case Num(n) => n == num
    case Array(items) => exists k :: 0 <= k < |items| && Contains(items[k], num)
    case Object(members) => exists k :: 0 <= k < |members| && Contains(members[k].value, num)
    case _ => false
  }

  /** No integer outside the range a double holds exactly. */
  predicate Harmless(num: Number) {
    match num
    case Integer(n) => -9_007_199_254_740_991 <= n <= 9_007_199_254_740_991
    case Float(x) =>
      x.Floor as real == x ==> -9_007_199_254_740_991 <= x.Floor <= 9_007_199_254_740_991
  }

  /** The preflight passes exactly when every number at every depth is harmless. */
  lemma {:induction false} PreflightIsExact(value: Value)
    ensures NumbersAreSafe(value) <==> forall num :: Contains(value, num) ==> Harmless(num)
    decreases value
  {
    match value
    case Num(num) => assert Contains(value, num);
    case Array(items) =>
      forall k | 0 <= k < |items| { PreflightIsExact(items[k]); }
      if forall num :: Contains(value, num) ==> Harmless(num) {
        forall k | 0 <= k < |items| ensures NumbersAreSafe(items[k]) {
          assert forall num :: Contains(items[k], num) ==> Contains(value, num);
        }
      }
    case Object(members) =>
      forall k | 0 <= k < |members| { PreflightIsExact(members[k].value); }
      if forall num :: Contains(value, num) ==> Harmless(num) {
        forall k | 0 <= k < |members| ensures NumbersAreSafe(members[k].value) {
          assert forall num :: Contains(members[k].value, num) ==> Contains(value, num);
        }
      }
    case _ =>
  }

  function Get(value: Value, name: string): Value {
    if value.Object? then Lookup(value.members, name) else Null
  }

  function Lookup(members: seq<Member>, name: string): Value {
    if members == [] then Null
    else if members[0].name == name then members[0].value
    else Lookup(members[1..], name)
  }

  function RpcError(id: Value, code: int, message: string): Value {
    Object([Member("jsonrpc", String("2.0")), Member("id", id),
            Member("error", Object([Member("code", Num(Integer(code))), Member("message", String(message))]))])
  }

  const UNSAFE := "MCP response contains an unsafe integer"
  const OVERSIZE := "MCP response exceeds the size limit"

  /** The id an error may echo. */
  function EchoedId(response: Value): Value {
    if ValidRpcId(Get(response, "id")) then Get(response, "id") else Null
  }

  datatype Written = Wrote(bytes: seq<Byte>) | Refused

  /** The response, or the error that replaces an unsafe one, does not fit. */
  predicate FirstTooLarge(response: Value, encode: Value -> seq<Byte>) {
    if NumbersAreSafe(response) then |encode(response)| > MAX_FRAME_BYTES
    else |encode(RpcError(EchoedId(response), -32603, UNSAFE))| > MAX_FRAME_BYTES
  }

  /** `encode` is the JSON serializer. The clauses cover every case: what is written is
      the first candidate that fits, and nothing is written when none does. */
  method WriteResponse(response: Value, encode: Value -> seq<Byte>) returns (written: Written)
    ensures written.Wrote? ==>
              exists value :: Emits(response, encode, value) && written.bytes == encode(value) + [LF]
    ensures NumbersAreSafe(response) && |encode(response)| <= MAX_FRAME_BYTES ==>
              written == Wrote(encode(response) + [LF])
    ensures var error := encode(RpcError(EchoedId(response), -32603, UNSAFE));
            !NumbersAreSafe(response) && |error| <= MAX_FRAME_BYTES ==> written == Wrote(error + [LF])
    ensures var error := encode(RpcError(EchoedId(response), -32603, OVERSIZE));
            FirstTooLarge(response, encode) && |error| <= MAX_FRAME_BYTES ==> written == Wrote(error + [LF])
    ensures var error := encode(RpcError(Null, -32603, OVERSIZE));
            && FirstTooLarge(response, encode)
            && |encode(RpcError(EchoedId(response), -32603, OVERSIZE))| > MAX_FRAME_BYTES ==>
              written == if |error| <= MAX_FRAME_BYTES then Wrote(error + [LF]) else Refused
  {
    var id := EchoedId(response);
    var value := if NumbersAreSafe(response) then response else RpcError(id, -32603, UNSAFE);
    ErrorIsSafe(id, UNSAFE);
    ErrorIsSafe(id, OVERSIZE);
    ErrorIsSafe(Null, OVERSIZE);
    var encoded := encode(value);
    if |encoded| > MAX_FRAME_BYTES {
      value := RpcError(id, -32603, OVERSIZE);
      encoded := encode(value);
    }
    if |encoded| > MAX_FRAME_BYTES {
      value := RpcError(Null, -32603, OVERSIZE);
      encoded := encode(value);
    }
    if |encoded| > MAX_FRAME_BYTES {
      return Refused;
    }
    assert Emits(response, encode, value);
    return Wrote(encoded + [LF]);
  }

  /** What may leave: the response itself, or an error that answers the same id
      or none, with safe numbers and within the frame limit. */
  ghost predicate Emits(response: Value, encode: Value -> seq<Byte>, value: Value) {
    && NumbersAreSafe(value)
    && |encode(value)| <= MAX_FRAME_BYTES
    && (value == response
        || (value.Object? && Get(value, "error").Object? && Get(value, "id") in {EchoedId(response), Null}))
  }

  lemma ErrorIsSafe(id: Value, message: string)
    requires ValidRpcId(id)
    ensures NumbersAreSafe(RpcError(id, -32603, message))
    ensures Get(RpcError(id, -32603, message), "id") == id
    ensures Get(RpcError(id, -32603, message), "error").Object?
  {
    var error := RpcError(id, -32603, message);
    var members := error.members;
    var detail := members[2].value;
    assert NumbersAreSafe(id);
    assert NumbersAreSafe(detail);
    assert members[0].name == "jsonrpc" && "jsonrpc"[0] != "id"[0] && "jsonrpc"[0] != "error"[0];
    assert members[1..][0] == Member("id", id) && "id"[0] != "error"[0];
    assert Lookup(members[1..], "id") == id;
    assert Lookup(members, "id") == id;
    assert members[1..][1..][0] == members[2];
    assert Lookup(members[1..][1..], "error") == detail;
    assert Lookup(members[1..], "error") == detail;
  }

  lemma {:induction false} LookupFinds(members: seq<Member>, name: string, k: nat)
    requires k < |members| && members[k].name == name
    requires forall j :: 0 <= j < k ==> members[j].name != name
    ensures Lookup(members, name) == members[k].value
    decreases k
  {
    if k > 0 {
      LookupFinds(members[1..], name, k - 1);
    }
  }

  lemma {:induction false} LookupMisses(members: seq<Member>, name: string)
    requires forall j :: 0 <= j < |members| ==> members[j].name != name
    ensures Lookup(members, name) == Null
    decreases |members|
  {
    if members != [] {
      LookupMisses(members[1..], name);
    }
  }

  /** A string, null or a whole number that a double holds exactly is echoed as it is;
      any other id, or none, is answered as null. */
  lemma IdIsEchoed(members: seq<Member>, k: nat)
    requires k < |members| && members[k].name == "id" && forall j :: 0 <= j < k ==> members[j].name != "id"
    ensures var id := members[k].value;
            EchoedId(Object(members)) ==
            if id.String? || (id.Num? && Harmless(id.num) && (id.num.Float? ==> id.num.x.Floor as real == id.num.x))
            then id else Null
  {
    LookupFinds(members, "id", k);
  }

  lemma MissingIdIsNull(response: Value)
    requires response.Object? ==> forall j :: 0 <= j < |response.members| ==> response.members[j].name != "id"
    ensures EchoedId(response) == Null
  {
    if response.Object? {
      LookupMisses(response.members, "id");
    }
  }

  /** An error object says exactly its version, its id, its code and its message. */
  lemma ErrorShape(id: Value, code: int, message: string)
    ensures var error := RpcError(id, code, message);
            && Get(error, "jsonrpc") == String("2.0") && Get(error, "id") == id
            && Get(Get(error, "error"), "code") == Num(Integer(code))
            && Get(Get(error, "error"), "message") == String(message)
            && |error.members| == 3 && |Get(error, "error").members| == 2
  {
    var error := RpcError(id, code, message);
    assert error.members[0].name[0] == 'j' && error.members[1].name[0] == 'i' && error.members[2].name[0] == 'e';
    LookupFinds(error.members, "jsonrpc", 0);
    LookupFinds(error.members, "id", 1);
    LookupFinds(error.members, "error", 2);
    var detail := error.members[2].value;
    assert detail.members[0].name[0] == 'c' && detail.members[1].name[0] == 'm';
    LookupFinds(detail.members, "code", 0);
    LookupFinds(detail.members, "message", 1);
  }

  /** Reading back what was written: if the serializer writes one line without a
      trailing carriage return, every response arrives as one frame, unbroken. */
  lemma ResponsesArriveWhole(values: seq<Value>, encode: Value -> seq<Byte>)
    requires forall k :: 0 <= k < |values| ==> Sendable(encode(values[k]))
    ensures FramesOf(Split(Sent(seq(|values|, k requires 0 <= k < |values| => encode(values[k])))))
            == seq(|values|, k requires 0 <= k < |values| => Frame(encode(values[k])))
  {
    var payloads := seq(|values|, k requires 0 <= k < |values| => encode(values[k]));
    RoundTrip(payloads);
    assert seq(|payloads|, k requires 0 <= k < |payloads| => Frame(payloads[k]))
        == seq(|values|, k requires 0 <= k < |values| => Frame(encode(values[k])));
  }
}
