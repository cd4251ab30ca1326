// What tns_connect_handle looks up in the descriptor of a CONNECT packet.
module ConnectReport {
  import opened CString
  import opened Outcome
  import opened JsonTree
  import D = Descriptor
  import DJ = DescriptorJson

  // The handler checks DESCRIPTION for null twice and CONNECT_DATA and CID
  // never, so a missing one of those is looked up in through a null pointer.
  datatype Report =
    | NoTree
    | NoDescription
    | NullLookup
    | Found(service: Option<string>, host: Option<string>, user: Option<string>)

  // First member with the name, letters compared without case.
  function Find(ms: Members, name: string): Option<Json> {
    match ms
    case NoMembers => None
    case Member(n, v, rest) => if Lower(n) == Lower(name) then Some(v) else Find(rest, name)
  }

  // cJSON_GetObjectItem on a value: only objects have named children.
  function ChildOf(v: Json, name: string): Option<Json> {
    if v.Object? then Find(v.members, name) else None
  }

  function TextOf(v: Option<Json>): Option<string> {
    match v
    case Some(String(text)) => Some(text)
    case _ => None
  }

  function ReportOf(root: Json): Report {
    match ChildOf(root, "DESCRIPTION")
    case None => NoDescription
    case Some(desc) =>
      match ChildOf(desc, "CONNECT_DATA")
      case None => NullLookup
      case Some(data) =>
        match ChildOf(data, "CID")
        case None => NullLookup
        case Some(cid) =>
          Found(TextOf(ChildOf(data, "SERVICE_NAME")), TextOf(ChildOf(cid, "HOST")), TextOf(ChildOf(cid, "USER")))
  }

  // The same questions asked of the descriptor itself.
  function FindNode(ns: D.Nodes, name: string): Option<D.Value> {
    if Lower(ns.name) == Lower(name) then Some(ns.value)
    else if ns.More? then FindNode(ns.rest, name) else None
  }

  // The value at the end of a path of names, each the first match in its list.
  function AtPath(v: Option<D.Value>, path: seq<string>): Option<D.Value>
    decreases |path|
  {
    if path == [] || v == None then v
    else AtPath(if v.value.Nested? then FindNode(v.value.nodes, path[0]) else None, path[1..])
  }

  function AtomAt(v: Option<D.Value>): Option<string> {
    if v.Some? && v.value.Atom? then Some(v.value.text) else None
  }

  lemma {:induction false} FindIsFindNode(ns: D.Nodes, name: string)
    ensures Find(DJ.MembersOf(ns), name) ==
            match FindNode(ns, name) case None => None case Some(v) => Some(DJ.ValueOf(v))
    decreases ns
  {
    if ns.More? { FindIsFindNode(ns.rest, name); }
  }

  function ValueOption(v: Option<D.Value>): Option<Json> {
    match v case None => None case Some(x) => Some(DJ.ValueOf(x))
  }

  lemma ChildIsNode(v: D.Value, name: string)
    ensures ChildOf(DJ.ValueOf(v), name) == ValueOption(AtPath(Some(v), [name]))
  {
    if v.Nested? { FindIsFindNode(v.nodes, name); }
    assert [name][1..] == [];
  }

  const DESCRIPTION := ["DESCRIPTION"]
  const CONNECT_DATA := ["DESCRIPTION", "CONNECT_DATA"]
  const CID := ["DESCRIPTION", "CONNECT_DATA", "CID"]
  const SERVICE_NAME := ["DESCRIPTION", "CONNECT_DATA", "SERVICE_NAME"]
  const HOST := ["DESCRIPTION", "CONNECT_DATA", "CID", "HOST"]
  const USER := ["DESCRIPTION", "CONNECT_DATA", "CID", "USER"]

  lemma PathsFrom(root: D.Value)
    ensures var v := Some(root);
            var desc := AtPath(v, DESCRIPTION);
            && AtPath(v, CONNECT_DATA) == AtPath(desc, ["CONNECT_DATA"])
            && AtPath(v, CID) == AtPath(AtPath(v, CONNECT_DATA), ["CID"])
            && AtPath(v, SERVICE_NAME) == AtPath(AtPath(v, CONNECT_DATA), ["SERVICE_NAME"])
            && AtPath(v, HOST) == AtPath(AtPath(v, CID), ["HOST"])
            && AtPath(v, USER) == AtPath(AtPath(v, CID), ["USER"])
  {
    PathJoin(root, DESCRIPTION, ["CONNECT_DATA"]);
    PathJoin(root, CONNECT_DATA, ["CID"]);
    PathJoin(root, CONNECT_DATA, ["SERVICE_NAME"]);
    PathJoin(root, CID, ["HOST"]);
    PathJoin(root, CID, ["USER"]);
    assert DESCRIPTION + ["CONNECT_DATA"] == CONNECT_DATA;
    assert CONNECT_DATA + ["CID"] == CID && CONNECT_DATA + ["SERVICE_NAME"] == SERVICE_NAME;
    assert CID + ["HOST"] == HOST && CID + ["USER"] == USER;
  }

  lemma {:induction false} PathJoin(v: D.Value, a: seq<string>, b: seq<string>)
    ensures AtPath(Some(v), a + b) == AtPath(AtPath(Some(v), a), b)
    decreases |a|
  {
    if a == [] {
      assert a + b == b;
    } else {
      assert (a + b)[1..] == a[1..] + b;
      var next := if v.Nested? then FindNode(v.nodes, a[0]) else None;
      if next.Some? { PathJoin(next.value, a[1..], b); }
    }
  }

  // The report, told by what each lookup finds.
  lemma ReportOfParts(root: Json, desc: Option<D.Value>, data: Option<D.Value>, cid: Option<D.Value>,
                      service: Option<D.Value>, host: Option<D.Value>, user: Option<D.Value>)
    requires ChildOf(root, "DESCRIPTION") == ValueOption(desc)
    requires desc.Some? ==> ChildOf(DJ.ValueOf(desc.value), "CONNECT_DATA") == ValueOption(data)
    requires desc.Some? && data.Some? ==> ChildOf(DJ.ValueOf(data.value), "CID") == ValueOption(cid)
    requires desc.Some? && data.Some? ==> ChildOf(DJ.ValueOf(data.value), "SERVICE_NAME") == ValueOption(service)
    requires desc.Some? && data.Some? && cid.Some? ==>
      ChildOf(DJ.ValueOf(cid.value), "HOST") == ValueOption(host)
    requires desc.Some? && data.Some? && cid.Some? ==>
      ChildOf(DJ.ValueOf(cid.value), "USER") == ValueOption(user)
    ensures ReportOf(root) ==
            if desc == None then NoDescription
            else if data == None || cid == None then NullLookup
            else Found(AtomAt(service), AtomAt(host), AtomAt(user))
  {
  }

  // For a descriptor the report is: the atoms at the first case-insensitive
  // match of each name along the three paths, and a null lookup exactly when
  // DESCRIPTION is there but CONNECT_DATA or CID below it is not.
  lemma ReportFollowsPaths(ns: D.Nodes)
    ensures var root := Some(D.Nested(ns));
            var report := ReportOf(Object(DJ.MembersOf(ns)));
            && (report == NoDescription <==> AtPath(root, DESCRIPTION) == None)
            && (report == NullLookup <==> AtPath(root, DESCRIPTION).Some? && AtPath(root, CID) == None)
            && (report.Found? ==> report == Found(AtomAt(AtPath(root, SERVICE_NAME)),
                                                  AtomAt(AtPath(root, HOST)), AtomAt(AtPath(root, USER))))
            && report != NoTree
  {
    var root := D.Nested(ns);
    PathsFrom(root);
    ChildIsNode(root, "DESCRIPTION");
    var desc := AtPath(Some(root), DESCRIPTION);
    if desc.Some? {
      ChildIsNode(desc.value, "CONNECT_DATA");
      var data := AtPath(Some(root), CONNECT_DATA);
      if data.Some? {
        ChildIsNode(data.value, "CID");
        ChildIsNode(data.value, "SERVICE_NAME");
        var cid := AtPath(Some(root), CID);
        if cid.Some? {
          ChildIsNode(cid.value, "HOST");
          ChildIsNode(cid.value, "USER");
        }
      }
    }
    var v := Some(root);
    ReportOfParts(DJ.ValueOf(root), desc, AtPath(v, CONNECT_DATA), AtPath(v, CID), AtPath(v, SERVICE_NAME),
                  AtPath(v, HOST), AtPath(v, USER));
  }
}
