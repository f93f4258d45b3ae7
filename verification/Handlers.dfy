/** simulator/datastore.py, simulator/protocol/uds.py and
    simulator/protocol/service77.py: the datapoint values and the two services. */
module Handlers {
  import opened Bytes

  // ----- Datapoint store -----------------------------------------------------

  type Store = map<int, seq<byte>>

  /** The longest value a positive read response can carry. */
  const MAX_VALUE: nat := 4092

  /** Every value that a two-byte DID can name fits a read response. */
  ghost predicate Bounded(store: Store) {
    forall did | did in store && 0 <= did < 0x10000 :: |store[did]| <= MAX_VALUE
  }

  class DatapointStore {
    var data: Store

    constructor (initial: Store)
      ensures data == initial
    {
      data := initial;
    }

    method Read(did: int) returns (value: Option<seq<byte>>)
      ensures value == if did in data then Some(data[did]) else None
    {
      if did in data {
        return Some(data[did]);
      }
      return None;
    }

    method Write(did: int, value: seq<byte>) returns (known: bool)
      modifies this
      ensures known <==> did in old(data)
      ensures data == if known then old(data)[did := value] else old(data)
    {
      if did !in data {
        return false;
      }
      data := data[did := value];
      return true;
    }
  }

  // ----- Constants -----------------------------------------------------------

  const SID_READ: byte := 0x22
  const SID_WRITE: byte := 0x2E
  const SID_NEGATIVE: byte := 0x7F
  const SID_SERVICE77: byte := 0x77
  const POSITIVE_OFFSET: byte := 0x40
  const S77_CONFIRM: byte := 0x44
  const NRC_SERVICE_NOT_SUPPORTED: byte := 0x11
  const NRC_SUBFUNCTION_NOT_SUPPORTED: byte := 0x12
  const NRC_CONDITIONS_NOT_CORRECT: byte := 0x22
  const NRC_OUT_OF_RANGE: byte := 0x31

  function NegativeResponse(sid: byte, nrc: byte): seq<byte> { [SID_NEGATIVE, sid, nrc] }

  function Word(hi: byte, lo: byte): nat {
    var h: nat := hi;
    h * 256 + lo
  }

  // ----- UDS -----------------------------------------------------------------

  /** A response, if any, and the store it leaves. */
  datatype Handled = Handled(response: Option<seq<byte>>, store: Store)

  function UdsRead(req: seq<byte>, store: Store): seq<byte>
    requires req != []
  {
    if |req| < 3 then NegativeResponse(SID_READ, NRC_SUBFUNCTION_NOT_SUPPORTED)
    else
      var did := Word(req[1], req[2]);
      if did !in store then NegativeResponse(SID_READ, NRC_OUT_OF_RANGE)
      else [SID_READ + POSITIVE_OFFSET, req[1], req[2]] + store[did]
  }

  function UdsWrite(protected: set<int>, req: seq<byte>, store: Store): Handled
    requires req != []
  {
    if |req| < 4 then
      Handled(Some(NegativeResponse(SID_WRITE, NRC_SUBFUNCTION_NOT_SUPPORTED)), store)
    else
      var did := Word(req[1], req[2]);
      if did in protected then
        Handled(Some(NegativeResponse(SID_WRITE, NRC_CONDITIONS_NOT_CORRECT)), store)
      else if did !in store then
        Handled(Some(NegativeResponse(SID_WRITE, NRC_OUT_OF_RANGE)), store)
      else
        Handled(Some([SID_WRITE + POSITIVE_OFFSET, req[1], req[2]]), store[did := req[3..]])
  }

  function UdsHandle(protected: set<int>, req: seq<byte>, store: Store): Handled {
    if req == [] then Handled(None, store)
    else if req[0] == SID_READ then Handled(Some(UdsRead(req, store)), store)
    else if req[0] == SID_WRITE then UdsWrite(protected, req, store)
    else Handled(Some(NegativeResponse(req[0], NRC_SERVICE_NOT_SUPPORTED)), store)
  }

  // ----- UDS byte by byte ----------------------------------------------------

  /** A write stores the bytes behind the DID and confirms it if and only if it has at
      least one, the DID is known and Service 77 does not own it. A refusal changes nothing
      and names the first of: too short, protected (known or not), unknown. */
  lemma UdsWriteIff(protected: set<int>, q: seq<byte>, store: Store)
    requires q != [] && q[0] == 0x2E
    ensures var h := UdsHandle(protected, q, store);
      var did := if |q| < 3 then 0 else q[1] as int * 256 + q[2];
      && (|q| >= 4 && did in store && did !in protected ==>
            h == Handled(Some([0x6E, q[1], q[2]]), store[did := q[3..]]))
      && (|q| < 4 ==> h == Handled(Some([0x7F, 0x2E, 0x12]), store))
      && (|q| >= 4 && did in protected ==> h == Handled(Some([0x7F, 0x2E, 0x22]), store))
      && (|q| >= 4 && did !in protected && did !in store ==> h == Handled(Some([0x7F, 0x2E, 0x31]), store))
  {
  }

  /** A read answers with the DID and its value if and only if the DID is there and known,
      and never changes anything. */
  lemma UdsReadIff(protected: set<int>, q: seq<byte>, store: Store)
    requires q != [] && q[0] == 0x22
    ensures var h := UdsHandle(protected, q, store);
      var did := if |q| < 3 then 0 else q[1] as int * 256 + q[2];
      && h.store == store
      && (|q| >= 3 && did in store ==> h.response == Some([0x62, q[1], q[2]] + store[did]))
      && (|q| < 3 ==> h.response == Some([0x7F, 0x22, 0x12]))
      && (|q| >= 3 && did !in store ==> h.response == Some([0x7F, 0x22, 0x31]))
  {
  }

  /** Any other service is refused under its own number, and only no request at all gets
      no answer. */
  lemma UdsOtherwise(protected: set<int>, q: seq<byte>, store: Store)
    ensures var h := UdsHandle(protected, q, store);
      && (h.response == None <==> q == [])
      && (q == [] || q[0] !in {0x22, 0x2E} ==> h.store == store)
      && (q != [] && q[0] !in {0x22, 0x2E} ==> h.response == Some([0x7F, q[0], 0x11]))
  {
  }

  class UDSHandler {
    const protected: set<int>

    constructor (service77Dids: set<int>)
      ensures protected == service77Dids
    {
      protected := service77Dids;
    }

    method Handle(payload: seq<byte>, store: DatapointStore) returns (response: Option<seq<byte>>)
      modifies store
      ensures Handled(response, store.data) == UdsHandle(protected, payload, old(store.data))
    {
      if payload == [] {
        return None;
      }
      var sid := payload[0];
      if sid == SID_READ {
        response := HandleRead(payload, store);
      } else if sid == SID_WRITE {
        response := HandleWrite(payload, store);
      } else {
        response := Some(NegativeResponse(sid, NRC_SERVICE_NOT_SUPPORTED));
      }
    }

    method HandleRead(payload: seq<byte>, store: DatapointStore) returns (response: Option<seq<byte>>)
      requires payload != []
      ensures response == Some(UdsRead(payload, store.data))
    {
      if |payload| < 3 {
        return Some(NegativeResponse(SID_READ, NRC_SUBFUNCTION_NOT_SUPPORTED));
      }
      var did := Word(payload[1], payload[2]);
      var data := store.Read(did);
      if data == None {
        return Some(NegativeResponse(SID_READ, NRC_OUT_OF_RANGE));
      }
      return Some([SID_READ + POSITIVE_OFFSET, payload[1], payload[2]] + data.value);
    }

    method HandleWrite(payload: seq<byte>, store: DatapointStore) returns (response: Option<seq<byte>>)
      requires payload != []
      modifies store
      ensures Handled(response, store.data) == UdsWrite(protected, payload, old(store.data))
    {
      if |payload| < 4 {
        return Some(NegativeResponse(SID_WRITE, NRC_SUBFUNCTION_NOT_SUPPORTED));
      }
      var did, data := Word(payload[1], payload[2]), payload[3..];
      if did in protected {
        return Some(NegativeResponse(SID_WRITE, NRC_CONDITIONS_NOT_CORRECT));
      }
      var success := store.Write(did, data);
      if !success {
        return Some(NegativeResponse(SID_WRITE, NRC_OUT_OF_RANGE));
      }
      return Some([SID_WRITE + POSITIVE_OFFSET, payload[1], payload[2]]);
    }
  }

  // ----- Service 77 ----------------------------------------------------------

  /** The bytes to store: byte 8 is skipped when its high nibble is 0x8 or more. */
  function S77Data(req: seq<byte>): seq<byte>
    requires |req| >= 9
  {
    if req[8] >= 0x80 then req[9..] else req[8..]
  }

  function S77Handle(req: seq<byte>, store: Store): Handled {
    if req == [] || req[0] != SID_SERVICE77 then Handled(None, store)
    else if |req| < 9 then
      Handled(Some(NegativeResponse(SID_SERVICE77, NRC_SUBFUNCTION_NOT_SUPPORTED)), store)
    else
      var did := Word(req[7], req[6]);
      if did !in store then
        Handled(Some(NegativeResponse(SID_SERVICE77, NRC_OUT_OF_RANGE)), store)
      else
        Handled(Some([SID_SERVICE77, req[1], req[2], S77_CONFIRM]), store[did := S77Data(req)])
  }

  // ----- Service 77 byte by byte ---------------------------------------------

  /** A request writes to the DID in its bytes 6 and 7, low byte first, if and only if it
      has nine bytes and the DID is known, whatever byte 8 is: from 0x80 on that byte is
      skipped, below it is data. A refusal changes nothing; what does not begin with 0x77
      is not answered at all. */
  lemma S77WriteIff(q: seq<byte>, store: Store)
    ensures var h := S77Handle(q, store);
      var did := if |q| < 9 then 0 else q[6] as int + q[7] as int * 256;
      && (h.response == None <==> q == [] || q[0] != 0x77)
      && (h.response == None ==> h.store == store)
      && (|q| >= 9 && q[0] == 0x77 && did in store && q[8] < 0x80 ==>
            h == Handled(Some([0x77, q[1], q[2], 0x44]), store[did := q[8..]]))
      && (|q| >= 9 && q[0] == 0x77 && did in store && q[8] >= 0x80 ==>
            h == Handled(Some([0x77, q[1], q[2], 0x44]), store[did := q[9..]]))
      && (1 <= |q| < 9 && q[0] == 0x77 ==> h == Handled(Some([0x7F, 0x77, 0x12]), store))
      && (|q| >= 9 && q[0] == 0x77 && did !in store ==> h == Handled(Some([0x7F, 0x77, 0x31]), store))
  {
  }

  class Service77Handler {
    constructor () {}

    method Handle(payload: seq<byte>, store: DatapointStore) returns (response: Option<seq<byte>>)
      modifies store
      ensures Handled(response, store.data) == S77Handle(payload, old(store.data))
    {
      if payload == [] || payload[0] != SID_SERVICE77 {
        return None;
      }
      if |payload| < 9 {
        return Some(NegativeResponse(SID_SERVICE77, NRC_SUBFUNCTION_NOT_SUPPORTED));
      }
      var did := Word(payload[7], payload[6]);
      var data: seq<byte>;
      if payload[8] / 16 * 16 >= 0x80 {
        data := payload[9..];
      } else {
        data := payload[8..];
      }
      var success := store.Write(did, data);
      if !success {
        return Some(NegativeResponse(SID_SERVICE77, NRC_OUT_OF_RANGE));
      }
      return Some([SID_SERVICE77, payload[1], payload[2], S77_CONFIRM]);
    }
  }
}
