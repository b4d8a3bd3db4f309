/** The wire form of call signalling messages (toxav/msi.c). */
module MsiCodec {
  import opened Words
  import opened Wrappers

  const ID_REQUEST: byte := 1
  const ID_ERROR: byte := 2
  const ID_CAPABILITIES: byte := 3

  datatype Request = Init | Push | Pop {
    function Code(): byte {
      match this case Init => 0 case Push => 1 case Pop => 2
    }
  }

  function RequestOf(code: byte): Request
    requires code <= 2
  {
    if code == 0 then Init else if code == 1 then Push else Pop
  }

  datatype MSIError =
    | NoError | InvalidMessage | InvalidParam | InvalidState | StrayMessage | System | Handle | Undisclosed {
    function Code(): (c: byte)
      ensures c <= 7
    {
      match this
      case NoError => 0 case InvalidMessage => 1 case InvalidParam => 2 case InvalidState => 3
      case StrayMessage => 4 case System => 5 case Handle => 6 case Undisclosed => 7
    }
  }

  function ErrorOf(code: byte): (e: MSIError)
    requires code <= 7
    ensures e.Code() == code
  {
    [NoError, InvalidMessage, InvalidParam, InvalidState, StrayMessage, System, Handle, Undisclosed][code as int]
  }

  datatype MSIMessage = MSIMessage(request: Option<Request>, error: Option<MSIError>, capabilities: Option<byte>)

  const NO_MESSAGE := MSIMessage(None, None, None)

  // ---------------------------------------------------------------- writing

  /** msg_parse_header_out for a one-byte value. */
  function HeaderOut(id: byte, value: byte): seq<byte> {
    [id, 1, value]
  }

  /** The bytes send_message prints; a message without a request is not sent. */
  function SendBytes(m: MSIMessage): Option<seq<byte>> {
    if m.request.None? then None
    else
      Some(HeaderOut(ID_REQUEST, m.request.value.Code())
           + (if m.error.Some? then HeaderOut(ID_ERROR, m.error.value.Code()) else [])
           + (if m.capabilities.Some? then HeaderOut(ID_CAPABILITIES, m.capabilities.value) else [])
           + [0])
  }

  /** The bytes in numbers: INIT, PUSH and POP are 0, 1 and 2; errors count from 0; every header is its id,
      the length 1 and the value. */
  lemma PrintedBytes(m: MSIMessage)
    requires m.request.Some?
    ensures var r: byte := if m.request == Some(Init) then 0 else if m.request == Some(Push) then 1 else 2;
            var e: seq<byte> :=
              match m.error
              case None => []
              case Some(NoError) => [2, 1, 0]
              case Some(InvalidMessage) => [2, 1, 1]
              case Some(InvalidParam) => [2, 1, 2]
              case Some(InvalidState) => [2, 1, 3]
              case Some(StrayMessage) => [2, 1, 4]
              case Some(System) => [2, 1, 5]
              case Some(Handle) => [2, 1, 6]
              case Some(Undisclosed) => [2, 1, 7];
            SendBytes(m) == Some([1, 1, r] + e + (if m.capabilities.Some? then [3, 1, m.capabilities.value] else []) + [0])
  {}

  // ---------------------------------------------------------------- the grammar

  /** One header of a message. */
  datatype Header = Header(id: byte, value: byte)

  predicate ValidHeader(h: Header) {
    && ID_REQUEST <= h.id <= ID_CAPABILITIES
    && (h.id == ID_REQUEST ==> h.value <= 2)
    && (h.id == ID_ERROR ==> h.value <= 7)
  }

  predicate AllValid(hs: seq<Header>) { forall i :: 0 <= i < |hs| ==> ValidHeader(hs[i]) }

  function Serialized(hs: seq<Header>): (b: seq<byte>)
    ensures |b| == 3 * |hs|
  {
    if hs == [] then [] else HeaderOut(hs[0].id, hs[0].value) + Serialized(hs[1..])
  }

  /** A header overwrites what an earlier one of the same kind said. */
  function Apply(m: MSIMessage, h: Header): MSIMessage
    requires ValidHeader(h)
  {
    if h.id == ID_REQUEST then m.(request := Some(RequestOf(h.value)))
    else if h.id == ID_ERROR then m.(error := Some(ErrorOf(h.value)))
    else m.(capabilities := Some(h.value))
  }

  function ApplyAll(m: MSIMessage, hs: seq<Header>): MSIMessage
    requires AllValid(hs)
    decreases |hs|
  {
    if hs == [] then m else ApplyAll(Apply(m, hs[0]), hs[1..])
  }

  /** `data` is a list of valid headers that add up to `m`, a zero byte, and anything that again ends
      in a zero byte. */
  ghost predicate Denotes(data: seq<byte>, m: MSIMessage) {
    && data != [] && data[|data| - 1] == 0 && m.request.Some?
    && exists hs, rest :: AllValid(hs) && data == Serialized(hs) + ([0] + rest) && ApplyAll(NO_MESSAGE, hs) == m
  }

  // ---------------------------------------------------------------- reading

  /** What the parser makes of the bytes from `i` on, given what it has read before. */
  function ScanFrom(data: seq<byte>, i: nat, m: MSIMessage): Option<MSIMessage>
    requires i <= |data|
    decreases |data| - i
  {
    if i == |data| then None
    else if data[i] == 0 then Some(m)
    else if i + 3 > |data| - 1 || data[i + 1] != 1 || !ValidHeader(Header(data[i], data[i + 2])) then None
    else ScanFrom(data, i + 3, Apply(m, Header(data[i], data[i + 2])))
  }

  function Parse(data: seq<byte>): Option<MSIMessage> {
    if data == [] || data[|data| - 1] != 0 then None
    else
      var r := ScanFrom(data, 0, NO_MESSAGE);
      if r.Some? && r.value.request.Some? then r else None
  }

  /** msg_parse_in: terminates and stays inside the buffer for arbitrary input. */
  method MsgParseIn(data: seq<byte>) returns (dest: Option<MSIMessage>)
    ensures dest == Parse(data)
  {
    if |data| == 0 || data[|data| - 1] != 0 {
      return None;
    }
    var m, it, constraint := NO_MESSAGE, 0, |data|;
    while data[it] != 0
      invariant it < |data| && constraint == |data| - it
      invariant ScanFrom(data, it, m) == ScanFrom(data, 0, NO_MESSAGE)
      decreases |data| - it
    {
      if data[it] == ID_REQUEST || data[it] == ID_ERROR || data[it] == ID_CAPABILITIES {
        constraint := constraint - 3;
        if constraint < 1 || data[it + 1] != 1 {
          return None;
        }
        if data[it] == ID_REQUEST {
          if data[it + 2] > 2 { return None; }
          m := m.(request := Some(RequestOf(data[it + 2])));
        } else if data[it] == ID_ERROR {
          if data[it + 2] > 7 { return None; }
          m := m.(error := Some(ErrorOf(data[it + 2])));
        } else {
          m := m.(capabilities := Some(data[it + 2]));
        }
        it := it + 3;
      } else {
        return None;
      }
    }
    if m.request.None? {
      return None;
    }
    return Some(m);
  }

  /** Scanning serialized headers followed by a zero byte adds them all up. */
  lemma {:induction false} ScanSerialized(before: seq<byte>, hs: seq<Header>, rest: seq<byte>, m: MSIMessage)
    requires AllValid(hs)
    decreases |hs|
    ensures ScanFrom(before + (Serialized(hs) + ([0] + rest)), |before|, m) == Some(ApplyAll(m, hs))
  {
    var data, i := before + (Serialized(hs) + ([0] + rest)), |before|;
    if hs == [] {
      assert data[i] == ([0] + rest)[0];
    } else {
      var h := hs[0];
      assert Serialized(hs) == HeaderOut(h.id, h.value) + Serialized(hs[1..]);
      assert data[i] == h.id && data[i + 1] == 1 && data[i + 2] == h.value;
      var next := before + HeaderOut(h.id, h.value);
      assert data == next + (Serialized(hs[1..]) + ([0] + rest));
      ScanSerialized(next, hs[1..], rest, Apply(m, h));
    }
  }

  /** Conversely, a successful scan has read serialized headers and a zero byte. */
  lemma {:induction false} ScanReads(data: seq<byte>, i: nat, m: MSIMessage) returns (hs: seq<Header>, rest: seq<byte>)
    requires i <= |data| && ScanFrom(data, i, m).Some?
    ensures AllValid(hs) && data[i..] == Serialized(hs) + ([0] + rest) && ScanFrom(data, i, m).value == ApplyAll(m, hs)
    decreases |data| - i
  {
    if data[i] == 0 {
      hs, rest := [], data[i + 1..];
      assert data[i..] == [0] + rest;
    } else {
      var h := Header(data[i], data[i + 2]);
      var more, tail := ScanReads(data, i + 3, Apply(m, h));
      hs, rest := [h] + more, tail;
      assert hs[1..] == more;
      assert data[i..] == HeaderOut(h.id, h.value) + data[i + 3..];
    }
  }

  /** The parser accepts exactly the messages of the grammar, with exactly their meaning. */
  lemma ParseExact(data: seq<byte>, m: MSIMessage)
    ensures Parse(data) == Some(m) <==> Denotes(data, m)
  {
    if Parse(data) == Some(m) {
      var hs, rest := ScanReads(data, 0, NO_MESSAGE);
      assert data[0..] == data;
    }
    if Denotes(data, m) {
      var hs, rest :| AllValid(hs) && data == Serialized(hs) + ([0] + rest) && ApplyAll(NO_MESSAGE, hs) == m;
      ScanSerialized([], hs, rest, NO_MESSAGE);
      assert [] + data == data;
    }
  }

  /** Headers of a message in the order they are printed. */
  function HeadersOf(m: MSIMessage): (hs: seq<Header>)
    requires m.request.Some?
    ensures AllValid(hs)
  {
    [Header(ID_REQUEST, m.request.value.Code())]
    + (if m.error.Some? then [Header(ID_ERROR, m.error.value.Code())] else [])
    + (if m.capabilities.Some? then [Header(ID_CAPABILITIES, m.capabilities.value)] else [])
  }

  lemma {:induction false} SerializedConcat(a: seq<Header>, b: seq<Header>)
    ensures Serialized(a + b) == Serialized(a) + Serialized(b)
  {
    if a == [] {
      assert a + b == b;
    } else {
      assert (a + b)[1..] == a[1..] + b;
      SerializedConcat(a[1..], b);
    }
  }

  lemma SerializedOne(h: Header)
    ensures Serialized([h]) == HeaderOut(h.id, h.value)
  {
    assert [h][1..] == [];
  }

  lemma ErrorRoundTrip(e: MSIError)
    ensures ErrorOf(e.Code()) == e
  {}

  /** Every message that is sent is understood as the message it was. */
  lemma MessageRoundTrip(m: MSIMessage)
    requires m.request.Some?
    ensures Parse(SendBytes(m).value) == Some(m)
  {
    var hs, data := HeadersOf(m), SendBytes(m).value;
    var r := Header(ID_REQUEST, m.request.value.Code());
    var es := if m.error.Some? then [Header(ID_ERROR, m.error.value.Code())] else [];
    var cs := if m.capabilities.Some? then [Header(ID_CAPABILITIES, m.capabilities.value)] else [];
    SerializedOne(r);
    if m.error.Some? { SerializedOne(es[0]); ErrorRoundTrip(m.error.value); }
    if m.capabilities.Some? { SerializedOne(cs[0]); }
    SerializedConcat([r], es);
    SerializedConcat([r] + es, cs);
    assert data == Serialized(hs) + ([0] + []);
    ScanSerialized([], hs, [], NO_MESSAGE);
    assert [] + data == data;
    Meaning(m, r, es, cs);
  }

  lemma Meaning(m: MSIMessage, r: Header, es: seq<Header>, cs: seq<Header>)
    requires m.request.Some? && r == Header(ID_REQUEST, m.request.value.Code())
    requires es == if m.error.Some? then [Header(ID_ERROR, m.error.value.Code())] else []
    requires cs == if m.capabilities.Some? then [Header(ID_CAPABILITIES, m.capabilities.value)] else []
    ensures ApplyAll(NO_MESSAGE, [r] + es + cs) == m
  {
    var hs := [r] + es + cs;
    assert hs[1..] == es + cs;
    var m1 := Apply(NO_MESSAGE, r);
    assert ApplyAll(NO_MESSAGE, hs) == ApplyAll(m1, es + cs);
    var m2 := m1.(error := m.error);
    if m.error.Some? {
      ErrorRoundTrip(m.error.value);
      assert (es + cs)[1..] == cs;
    } else {
      assert es + cs == cs;
    }
    assert ApplyAll(m1, es + cs) == ApplyAll(m2, cs);
    if m.capabilities.Some? {
      assert cs[1..] == [];
      assert ApplyAll(m2, cs) == ApplyAll(Apply(m2, cs[0]), []);
    }
  }
}
