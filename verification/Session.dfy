// One TNS session: the dispatch tables of oracle_tns.c, the handlers that update
// the session record, and what the record says after any history of packets.
module Session {
  import opened Outcome
  import opened VisibleRun

  // A packet of len bytes, and what the buffer holds from its first byte on.
  datatype Packet = Packet(buf: seq<Byte>, len: nat)

  // The handlers read fixed fields without looking at len, and scan a data
  // packet as if its eight header bytes came again at the end.
  predicate Readable(p: Packet) {
    |p.buf| >= 40 && |p.buf| >= p.len + TNS_HEAD_LEN
  }

  const TNS_HEAD_LEN := 8

  const TNS_TYPE_CONNECT := 1
  const TNS_TYPE_ACCEPT := 2
  const TNS_TYPE_REFUSE := 4
  const TNS_TYPE_DATA := 6
  const TNS_TYPE_RESEND := 11

  const TNS_313 := 313
  const TNS_314 := 314
  const DATA_ID_SNS := 0xde
  const DATA_ID_SP := 0x01
  const DATA_ID_OCI := 0x03
  const DATA_ID_RS := 0x04

  const STAT_CONNECT := 0x02
  const STAT_ACCEPT := 0x04
  const STAT_REFUSE := 0x05
  const STAT_DATA := 0x06
  const STAT_LOGING_IN := 0x10

  const CODE_SUCCESS := 0
  const CODE_PKT_LEN := 1
  const CODE_PKT_TYPE := 2
  const CODE_DATA_ID := 3

  datatype Handler = Connect | Accept | Refuse | Data | Resend
  datatype DataHandler = Sns313 | Sp313 | Oci313 | Rs313 | Sns314 | Sp314 | Oci314 | Rs314

  datatype Entry<H> = Entry(version: nat, kind: nat, func: Option<H>)

  const MSG_TYPE_HANDLES: seq<Entry<Handler>> := [
    Entry(0, 1, Some(Connect)), Entry(0, 2, Some(Accept)), Entry(0, 3, None), Entry(0, 4, Some(Refuse)),
    Entry(0, 5, None), Entry(0, 6, Some(Data)), Entry(0, 7, None), Entry(0, 8, None), Entry(0, 9, None),
    Entry(0, 10, None), Entry(0, 11, Some(Resend)), Entry(0, 12, None), Entry(0, 13, None), Entry(0, 14, None)]

  const MSG_DATA_ID_HANDLES: seq<Entry<DataHandler>> := [
    Entry(TNS_313, DATA_ID_SNS, Some(Sns313)), Entry(TNS_313, DATA_ID_SP, Some(Sp313)),
    Entry(TNS_313, DATA_ID_OCI, Some(Oci313)), Entry(TNS_313, DATA_ID_RS, Some(Rs313)),
    Entry(TNS_314, DATA_ID_SNS, Some(Sns314)), Entry(TNS_314, DATA_ID_SP, Some(Sp314)),
    Entry(TNS_314, DATA_ID_OCI, Some(Oci314)), Entry(TNS_314, DATA_ID_RS, Some(Rs314))]

  // NTOHS of the two bytes there.
  function Field(p: Packet, at: nat): nat
    requires Readable(p) && at + 2 <= 40
  {
    256 * (p.buf[at] as int) + (p.buf[at + 1] as int)
  }

  // The number v stands there, its high byte first.
  predicate Stands(p: Packet, at: nat, v: nat)
    requires at + 2 <= |p.buf|
  {
    v < 65536 && p.buf[at] as int == v / 256 && p.buf[at + 1] as int == v % 256
  }

  lemma FieldIsBigEndian(p: Packet, at: nat, v: nat)
    requires Readable(p) && at + 2 <= 40
    ensures Field(p, at) == v <==> Stands(p, at, v)
  {
  }

  // What the record holds of the packets.
  datatype View = View(version: nat, compatible: nat, state: int)

  // Which packets matter, from their bytes alone.
  predicate Framed(p: Packet)
    requires Readable(p)
  {
    p.len == Field(p, 0) && p.len > TNS_HEAD_LEN
  }

  predicate IsConnect(p: Packet)
    requires Readable(p)
  {
    Framed(p) && p.buf[4] == TNS_TYPE_CONNECT && Field(p, 24) > 0
  }

  predicate IsAccept(p: Packet)
    requires Readable(p)
  {
    Framed(p) && p.buf[4] == TNS_TYPE_ACCEPT
  }

  predicate IsRefuse(p: Packet)
    requires Readable(p)
  {
    Framed(p) && p.buf[4] == TNS_TYPE_REFUSE
  }

  predicate IsData(p: Packet)
    requires Readable(p)
  {
    Framed(p) && p.buf[4] == TNS_TYPE_DATA
  }

  predicate SetsVersion(p: Packet)
    requires Readable(p)
  {
    IsConnect(p) || IsAccept(p)
  }

  predicate SetsState(p: Packet)
    requires Readable(p)
  {
    SetsVersion(p) || IsRefuse(p) || IsData(p)
  }

  // A data packet with the logon call of the OCI functions.
  predicate IsLogon(p: Packet)
    requires Readable(p)
  {
    IsData(p) && p.len > TNS_HEAD_LEN + 4 && p.buf[10] == DATA_ID_OCI && p.buf[11] == 0x73
  }

  function CodeOf(p: Packet): int
    requires Readable(p)
  {
    if p.len != Field(p, 0) then CODE_PKT_LEN
    else if p.buf[4] in {TNS_TYPE_CONNECT, TNS_TYPE_ACCEPT, TNS_TYPE_REFUSE, TNS_TYPE_DATA, TNS_TYPE_RESEND}
    then CODE_SUCCESS
    else CODE_PKT_TYPE
  }

  // The record after one packet.
  function After(v: View, p: Packet): View
    requires Readable(p)
  {
    if IsConnect(p) then View(Field(p, 8), Field(p, 10), STAT_CONNECT)
    else if IsAccept(p) then v.(version := Field(p, 8), state := STAT_ACCEPT)
    else if IsRefuse(p) then v.(state := STAT_REFUSE)
    else if IsData(p) then v.(state := if v.version == TNS_313 && IsLogon(p) then STAT_LOGING_IN else STAT_DATA)
    else v
  }

  // The text the OCI and the return status handler of version 313 show.
  ghost predicate DataShows(version: nat, p: Packet, shown: Option<seq<Byte>>)
    requires Readable(p)
  {
    var scanned := p.buf[TNS_HEAD_LEN..TNS_HEAD_LEN + p.len];
    if p.len > TNS_HEAD_LEN + 4 && version == TNS_313 && p.buf[10] == DATA_ID_OCI && p.buf[11] == 0x5e then
      shown.Some? && IsRunText(scanned, 1024, shown.value)
    else if p.len > TNS_HEAD_LEN + 4 && version == TNS_313 && p.buf[10] == DATA_ID_RS then
      shown.Some? && IsRunText(scanned, 128, shown.value)
    else shown == None
  }

  ghost predicate ShownBy(version: nat, p: Packet, shown: Option<seq<Byte>>)
    requires Readable(p)
  {
    if IsData(p) then DataShows(version, p, shown) else shown == None
  }

  // packet_handle looks at the type alone, msg_data_id_handle also at the version.
  predicate Serves(e: Entry<Handler>, kind: nat) {
    e.kind == kind && e.func.Some?
  }

  predicate ServesData(e: Entry<DataHandler>, version: nat, kind: nat) {
    e.version == version && e.kind == kind && e.func.Some?
  }

  // The entry that is called: the first that serves.
  predicate Calls(table: seq<Entry<Handler>>, kind: nat, j: nat) {
    j < |table| && Serves(table[j], kind) && forall i :: 0 <= i < j ==> !Serves(table[i], kind)
  }

  predicate CallsData(table: seq<Entry<DataHandler>>, version: nat, kind: nat, j: nat) {
    && j < |table| && ServesData(table[j], version, kind)
    && forall i :: 0 <= i < j ==> !ServesData(table[i], version, kind)
  }

  // The handler for a type, as the table has it.
  function HandlerOf(kind: nat): Option<Handler> {
    if kind == TNS_TYPE_CONNECT then Some(Connect) else if kind == TNS_TYPE_ACCEPT then Some(Accept)
    else if kind == TNS_TYPE_REFUSE then Some(Refuse) else if kind == TNS_TYPE_DATA then Some(Data)
    else if kind == TNS_TYPE_RESEND then Some(Resend) else None
  }

  function DataHandlerOf(version: nat, kind: nat): Option<DataHandler> {
    if version == 313 then
      if kind == 0xde then Some(Sns313) else if kind == 0x01 then Some(Sp313)
      else if kind == 0x03 then Some(Oci313) else if kind == 0x04 then Some(Rs313) else None
    else if version == 314 then
      if kind == 0xde then Some(Sns314) else if kind == 0x01 then Some(Sp314)
      else if kind == 0x03 then Some(Oci314) else if kind == 0x04 then Some(Rs314) else None
    else None
  }

  class Session {
    var version: nat
    var versionCompatible: nat
    var state: int

    function Now(): View
      reads this
    {
      View(version, versionCompatible, state)
    }

    // The connect data itself is the business of ConnectHandler.
    method TnsConnect(p: Packet) returns (code: int)
      requires Readable(p)
      modifies this
      ensures code == CODE_SUCCESS
      ensures Now() == if p.len > TNS_HEAD_LEN && Field(p, 24) > 0 then View(Field(p, 8), Field(p, 10), STAT_CONNECT)
                       else old(Now())
    {
      code := CODE_SUCCESS;
      if p.len <= TNS_HEAD_LEN { return; }
      if 0 >= Field(p, 24) { return; }
      version := Field(p, 8);
      versionCompatible := Field(p, 10);
      state := STAT_CONNECT;
    }

    method TnsAccept(p: Packet) returns (code: int)
      requires Readable(p)
      modifies this
      ensures code == CODE_SUCCESS
      ensures Now() == if p.len > TNS_HEAD_LEN then old(Now()).(version := Field(p, 8), state := STAT_ACCEPT)
                       else old(Now())
    {
      code := CODE_SUCCESS;
      if p.len <= TNS_HEAD_LEN { return; }
      version := Field(p, 8);
      state := STAT_ACCEPT;
    }

    method TnsRefuse(p: Packet) returns (code: int)
      requires Readable(p)
      modifies this
      ensures code == CODE_SUCCESS
      ensures Now() == if p.len > TNS_HEAD_LEN then old(Now()).(state := STAT_REFUSE) else old(Now())
    {
      code := CODE_SUCCESS;
      if p.len <= TNS_HEAD_LEN { return; }
      state := STAT_REFUSE;
    }

    // tns_data_handle drops the code of the data handlers.
    method TnsData(p: Packet) returns (code: int, shown: Option<seq<Byte>>)
      requires Readable(p)
      modifies this
      ensures code == CODE_SUCCESS && Now() == Effect(Data, old(Now()), p) && DataShows(version, p, shown)
    {
      code, shown := CODE_SUCCESS, None;
      if p.len <= TNS_HEAD_LEN { return; }
      state := STAT_DATA;
      if p.len <= TNS_HEAD_LEN + 4 { return; }
      DataTable(version, p.buf[10] as int);
      var ignored;
      ignored, shown := MsgDataIdHandle(MSG_DATA_ID_HANDLES, p.buf[10] as int, p.buf[TNS_HEAD_LEN..], p.len);
      assert p.buf[TNS_HEAD_LEN..][..p.len] == p.buf[TNS_HEAD_LEN..TNS_HEAD_LEN + p.len];
      assert p.buf[TNS_HEAD_LEN..][3] == p.buf[11];
    }

    // The loop of msg_data_id_handle, on any table: the first entry that serves
    // is called, or the code says that there is none.
    method MsgDataIdHandle(table: seq<Entry<DataHandler>>, kind: nat, data: seq<Byte>, len: nat)
      returns (code: int, shown: Option<seq<Byte>>)
      requires len > 3 && |data| >= len
      modifies this
      ensures version == old(version) && versionCompatible == old(versionCompatible)
      ensures (forall j :: 0 <= j < |table| ==> !ServesData(table[j], version, kind)) ==>
        code == 3 && state == old(state) && shown == None
      ensures forall j: nat :: CallsData(table, version, kind, j) ==>
        code == 0 && state == Logged(table[j].func.value, data, old(state))
        && Shows(table[j].func.value, data, len, shown)
    {
      var i := 0;
      shown := None;
      while i < |table|
        invariant 0 <= i <= |table| && Now() == old(Now()) && shown == None
        invariant forall j :: 0 <= j < i ==> !ServesData(table[j], version, kind)
      {
        if ServesData(table[i], version, kind) {
          assert forall j: nat :: CallsData(table, version, kind, j) ==> j == i;
          shown := CallData(table[i].func.value, data, len);
          return CODE_SUCCESS, shown;
        }
        i := i + 1;
      }
      code := CODE_DATA_ID;
    }

    method CallData(h: DataHandler, data: seq<Byte>, len: nat) returns (shown: Option<seq<Byte>>)
      requires len > 3 && |data| >= len
      modifies this
      ensures version == old(version) && versionCompatible == old(versionCompatible)
      ensures state == Logged(h, data, old(state)) && Shows(h, data, len, shown)
    {
      shown := None;
      match h
      case Rs313 =>
        var text := RunText(data[..len], 128);
        shown := Some(text);
      case Oci313 =>
        if data[3] == 0x5e {
          var text := RunText(data[..len], 1024);
          shown := Some(text);
        } else if data[3] == 0x73 {
          state := STAT_LOGING_IN;
        }
      case _ =>
    }

    // TNS_protocol_parse: the record changes as After says, for any packet.
    method TnsProtocolParse(p: Packet) returns (code: int, shown: Option<seq<Byte>>)
      requires Readable(p)
      modifies this
      ensures Now() == After(old(Now()), p) && code == CodeOf(p)
      ensures ShownBy(old(version), p, shown)
    {
      shown := None;
      if p.len != Field(p, 0) { return CODE_PKT_LEN, None; }
      TypeTable(p.buf[4] as int);
      EffectIsAfter(Now(), p);
      code, shown := PacketHandle(MSG_TYPE_HANDLES, p.buf[4] as int, p);
    }

    // The loop of packet_handle, on any table.
    method PacketHandle(table: seq<Entry<Handler>>, kind: nat, p: Packet) returns (code: int, shown: Option<seq<Byte>>)
      requires Readable(p)
      modifies this
      ensures (forall j :: 0 <= j < |table| ==> !Serves(table[j], kind)) ==>
        code == 2 && Now() == old(Now()) && shown == None
      ensures forall j: nat :: Calls(table, kind, j) ==>
        code == 0 && Now() == Effect(table[j].func.value, old(Now()), p)
        && if table[j].func.value == Data then DataShows(old(version), p, shown) else shown == None
    {
      var i := 0;
      shown := None;
      while i < |table|
        invariant 0 <= i <= |table| && Now() == old(Now()) && shown == None
        invariant forall j :: 0 <= j < i ==> !Serves(table[j], kind)
      {
        if Serves(table[i], kind) {
          assert forall j: nat :: Calls(table, kind, j) ==> j == i;
          code, shown := Call(table[i].func.value, p);
          return;
        }
        i := i + 1;
      }
      code := CODE_PKT_TYPE;
    }

    method Call(h: Handler, p: Packet) returns (code: int, shown: Option<seq<Byte>>)
      requires Readable(p)
      modifies this
      ensures Now() == Effect(h, old(Now()), p) && code == CODE_SUCCESS
      ensures if h == Data then DataShows(old(version), p, shown) else shown == None
    {
      shown, code := None, CODE_SUCCESS;
      match h
      case Connect => code := TnsConnect(p);
      case Accept => code := TnsAccept(p);
      case Refuse => code := TnsRefuse(p);
      case Data => code, shown := TnsData(p);
      case Resend =>
    }
  }

  // What a handler does to the record, whatever packet it is called with.
  function Effect(h: Handler, v: View, p: Packet): View
    requires Readable(p)
  {
    if p.len <= TNS_HEAD_LEN then v
    else
      match h
      case Connect => if Field(p, 24) > 0 then View(Field(p, 8), Field(p, 10), STAT_CONNECT) else v
      case Accept => v.(version := Field(p, 8), state := STAT_ACCEPT)
      case Refuse => v.(state := STAT_REFUSE)
      case Data =>
        var logon := v.version == TNS_313 && p.len > TNS_HEAD_LEN + 4 && p.buf[10] == DATA_ID_OCI && p.buf[11] == 0x73;
        v.(state := if logon then STAT_LOGING_IN else STAT_DATA)
      case Resend => v
  }

  // For the handler of its type, that is what After says.
  lemma EffectIsAfter(v: View, p: Packet)
    requires Readable(p) && p.len == Field(p, 0)
    ensures After(v, p) == match HandlerOf(p.buf[4] as int) case None => v case Some(h) => Effect(h, v, p)
  {
  }

  // What a data handler does to the state, and what it shows.
  function Logged(h: DataHandler, data: seq<Byte>, state: int): int
    requires |data| > 3
  {
    if h == Oci313 && data[3] == 0x73 then STAT_LOGING_IN else state
  }

  ghost predicate Shows(h: DataHandler, data: seq<Byte>, len: nat, shown: Option<seq<Byte>>)
    requires 3 < len <= |data|
  {
    if h == Oci313 && data[3] == 0x5e then shown.Some? && IsRunText(data[..len], 1024, shown.value)
    else if h == Rs313 then shown.Some? && IsRunText(data[..len], 128, shown.value)
    else shown == None
  }

  // The tables say what HandlerOf and DataHandlerOf say.
  lemma TypeTable(kind: nat)
    ensures match HandlerOf(kind)
            case None => forall j :: 0 <= j < |MSG_TYPE_HANDLES| ==> !Serves(MSG_TYPE_HANDLES[j], kind)
            case Some(h) => Calls(MSG_TYPE_HANDLES, kind, kind - 1) && MSG_TYPE_HANDLES[kind - 1].func == Some(h)
  {
  }

  // Where the data table has the handler for a version and an id.
  function DataIndex(version: nat, kind: nat): nat {
    (if version == TNS_313 then 0 else 4) +
    (if kind == DATA_ID_SNS then 0 else if kind == DATA_ID_SP then 1 else if kind == DATA_ID_OCI then 2 else 3)
  }

  lemma DataTable(version: nat, kind: nat)
    ensures var t := MSG_DATA_ID_HANDLES;
            match DataHandlerOf(version, kind)
            case None => forall j :: 0 <= j < |t| ==> !ServesData(t[j], version, kind)
            case Some(h) =>
              CallsData(t, version, kind, DataIndex(version, kind)) && t[DataIndex(version, kind)].func == Some(h)
  {
  }

  // The same in bytes: the length in the first two, the type in the fifth. Of a
  // packet longer than its head, with its own length there, ...
  predicate Arrives(p: Packet, kind: int)
    requires Readable(p)
  {
    Stands(p, 0, p.len) && p.len > 8 && p.buf[4] as int == kind
  }

  // ... a CONNECT with connect data sets the three fields,
  lemma ConnectInBytes(v: View, p: Packet, version: nat, compatible: nat, data: nat)
    requires Readable(p) && Arrives(p, 1) && Stands(p, 8, version) && Stands(p, 10, compatible) && Stands(p, 24, data)
    ensures CodeOf(p) == 0 && After(v, p) == if data > 0 then View(version, compatible, 0x02) else v
  {
    FieldIsBigEndian(p, 0, p.len);
    FieldIsBigEndian(p, 8, version);
    FieldIsBigEndian(p, 10, compatible);
    FieldIsBigEndian(p, 24, data);
  }

  // an ACCEPT the version and the state,
  lemma AcceptInBytes(v: View, p: Packet, version: nat)
    requires Readable(p) && Arrives(p, 2) && Stands(p, 8, version)
    ensures CodeOf(p) == 0 && After(v, p) == View(version, v.compatible, 0x04)
  {
    FieldIsBigEndian(p, 0, p.len);
    FieldIsBigEndian(p, 8, version);
  }

  // and REFUSE and DATA the state. RESEND, any other type, a shorter packet and
  // one of another length than its first bytes say leave the record alone.
  lemma OthersInBytes(v: View, p: Packet)
    requires Readable(p)
    ensures Arrives(p, 4) ==> CodeOf(p) == 0 && After(v, p) == View(v.version, v.compatible, 0x05)
    ensures Arrives(p, 6) ==> CodeOf(p) == 0 && After(v, p) == View(v.version, v.compatible,
              if v.version == 313 && p.len > 12 && p.buf[10] == 0x03 && p.buf[11] == 0x73 then 0x10 else 0x06)
    ensures Arrives(p, 11) ==> CodeOf(p) == 0 && After(v, p) == v
    ensures Stands(p, 0, p.len) && p.buf[4] !in [1, 2, 4, 6, 11] ==> CodeOf(p) == 2 && After(v, p) == v
    ensures Stands(p, 0, p.len) && p.buf[4] in [1, 2, 4, 6, 11] && p.len <= 8 ==> CodeOf(p) == 0 && After(v, p) == v
    ensures !Stands(p, 0, p.len) ==> CodeOf(p) == 1 && After(v, p) == v
  {
    FieldIsBigEndian(p, 0, p.len);
  }

  predicate AllReadable(h: seq<Packet>) {
    forall i :: 0 <= i < |h| ==> Readable(h[i])
  }

  // The record after a whole history.
  function Run(v: View, h: seq<Packet>): View
    requires AllReadable(h)
  {
    if h == [] then v else After(Run(v, h[..|h| - 1]), h[|h| - 1])
  }

  // What a packet may set.
  datatype Kind = OfVersion | OfCompatible | OfState

  predicate Is(kind: Kind, p: Packet)
    requires Readable(p)
  {
    match kind case OfVersion => SetsVersion(p) case OfCompatible => IsConnect(p) case OfState => SetsState(p)
  }

  // The last packet of a kind, or none.
  function Last(kind: Kind, h: seq<Packet>): (r: Option<nat>)
    requires AllReadable(h)
    ensures r.Some? ==> r.value < |h| && Is(kind, h[r.value]) && forall j :: r.value < j < |h| ==> !Is(kind, h[j])
    ensures r.None? ==> forall j :: 0 <= j < |h| ==> !Is(kind, h[j])
  {
    if h == [] then None else if Is(kind, h[|h| - 1]) then Some(|h| - 1) else Last(kind, h[..|h| - 1])
  }

  // The version after a history: the field of its last connect or accept.
  function VersionOf(v: View, h: seq<Packet>): nat
    requires AllReadable(h)
  {
    match Last(OfVersion, h)
    case None => v.version
    case Some(k) => Field(h[k], 8)
  }

  // The state a packet leaves, for the version before it.
  function StateOf(version: nat, p: Packet): int
    requires Readable(p)
  {
    if IsConnect(p) then STAT_CONNECT
    else if IsAccept(p) then STAT_ACCEPT
    else if IsRefuse(p) then STAT_REFUSE
    else if version == TNS_313 && IsLogon(p) then STAT_LOGING_IN
    else STAT_DATA
  }

  // The record is a function of which packets came last: the version is the
  // field of the last connect or accept, the compatible version that of the
  // last connect, and the state that of the last packet that sets one.
  lemma {:induction false} VersionFollowsHistory(v: View, h: seq<Packet>)
    requires AllReadable(h)
    ensures Run(v, h).version == VersionOf(v, h)
    decreases |h|
  {
    if h != [] { VersionFollowsHistory(v, h[..|h| - 1]); }
  }

  lemma {:induction false} CompatibleFollowsHistory(v: View, h: seq<Packet>)
    requires AllReadable(h)
    ensures Run(v, h).compatible == match Last(OfCompatible, h)
                                    case None => v.compatible
                                    case Some(k) => Field(h[k], 10)
    decreases |h|
  {
    if h != [] { CompatibleFollowsHistory(v, h[..|h| - 1]); }
  }

  lemma {:induction false} StateFollowsHistory(v: View, h: seq<Packet>)
    requires AllReadable(h)
    ensures Run(v, h).state == match Last(OfState, h)
                               case None => v.state
                               case Some(k) => StateOf(VersionOf(v, h[..k]), h[k])
    decreases |h|
  {
    if h != [] {
      var n := |h| - 1;
      VersionFollowsHistory(v, h[..n]);
      if !Is(OfState, h[n]) {
        StateFollowsHistory(v, h[..n]);
        var k := Last(OfState, h[..n]);
        if k.Some? { assert h[..n][..k.value] == h[..k.value]; }
      }
    }
  }

  // So the session is logging in exactly if the last packet that sets the state
  // was a logon call and the last connect or accept before it was of version 313.
  lemma LoggingInFollowsHistory(v: View, h: seq<Packet>)
    requires AllReadable(h)
    ensures Run(v, h).state == STAT_LOGING_IN <==>
            match Last(OfState, h)
            case None => v.state == STAT_LOGING_IN
            case Some(k) => IsLogon(h[k]) && VersionOf(v, h[..k]) == TNS_313
  {
    StateFollowsHistory(v, h);
  }

  // Packets that the session ignores leave no trace, wherever they stand.
  lemma {:induction false} IgnoredPacketsLeaveNoTrace(v: View, h: seq<Packet>, p: Packet, t: seq<Packet>)
    requires AllReadable(h) && AllReadable(t) && Readable(p) && !SetsState(p)
    ensures AllReadable(h + [p] + t) && AllReadable(h + t)
    ensures Run(v, h + [p] + t) == Run(v, h + t)
    decreases |t|
  {
    if t == [] {
      assert h + [p] + t == h + [p] && h + t == h && (h + [p])[..|h|] == h;
    } else {
      IgnoredPacketsLeaveNoTrace(v, h, p, t[..|t| - 1]);
      assert (h + [p] + t)[..|h + [p] + t| - 1] == h + [p] + t[..|t| - 1];
      assert (h + t)[..|h + t| - 1] == h + t[..|t| - 1];
    }
  }
}
