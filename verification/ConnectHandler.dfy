// tns_connect_handle from the connect data on: rewrite it, parse the text into
// memory and look the names up there.
module ConnectHandler {
  import opened CString
  import opened Outcome
  import opened JsonTree
  import opened CJsonHeap
  import opened CJsonMemory
  import opened ConnectReport
  import D = Descriptor
  import DJ = DescriptorJson
  import H = CJsonChains
  import C = CJsonParse
  import S = PrintString
  import JsonParser

  lemma {:induction false} KidDenotes(f: Forest, ms: Members, name: string)
    requires C.DenoteMembers(f, ms)
    ensures Find(ms, name).Some? <==> H.FirstNamed(f, name) < Length(f)
    ensures Find(ms, name).Some? ==> C.Denotes(H.Kid(f, H.FirstNamed(f, name)), Find(ms, name).value)
    decreases ms
  {
    if ms.Member? { KidDenotes(f.tail, ms.rest, name); }
  }

  lemma {:induction false} NoNamedKid(f: Forest, es: Elements, name: string)
    requires C.DenoteElements(f, es)
    ensures H.FirstNamed(f, name) == Length(f)
    decreases es
  {
    if es.Element? { NoNamedKid(f.tail, es.rest, name); }
  }

  lemma {:induction false} KidOwned(f: Forest, i: nat)
    requires ForestOwned(f) && i < Length(f)
    ensures Owned(H.Kid(f, i))
  {
    if i > 0 { KidOwned(f.tail, i - 1); }
  }

  // A tree that stands for a value, with nothing shared.
  ghost predicate Stands(m: Memory, t: Tree, v: Json)
    reads m
  {
    H.Container(m, t) && Owned(t) && C.Denotes(t, v)
  }

  // cJSON_GetObjectItem finds the first member with the name, if there is one.
  method Lookup(m: Memory, node: Ptr, name: string, ghost t: Tree, ghost v: Json) returns (c: Ptr, ghost u: Tree)
    requires node == t.at && Stands(m, t, v) && NulFree(name)
    ensures c == 0 <==> ChildOf(v, name) == None
    ensures c != 0 ==> u.at == c && Stands(m, u, ChildOf(v, name).value)
  {
    c := H.GetObjectItem(m, node, name, t, false);
    ghost var i := H.FirstNamed(t.kids, name);
    u := t;
    match v {
      case Object(ms) => KidDenotes(t.kids, ms, name);
      case Array(es) => NoNamedKid(t.kids, es, name);
      case _ =>
    }
    if i < Length(t.kids) {
      H.LinksOfKid(m.View(), t.kids, 0, i);
      KidOwned(t.kids, i);
      u := H.Kid(t.kids, i);
    }
  }

  // The text of a child that is a string.
  method LookupText(m: Memory, node: Ptr, name: string, ghost t: Tree, ghost v: Json) returns (text: Option<string>)
    requires node == t.at && Stands(m, t, v) && NulFree(name)
    ensures text == TextOf(ChildOf(v, name))
  {
    var c, u := Lookup(m, node, name, t, v);
    text := None;
    if c != 0 && m.nodes[c].kind == STRING_KIND {
      text := Some(m.texts[m.nodes[c].valuestring]);
    }
  }

  method LookUpAll(m: Memory, root: Ptr, ghost t: Tree, ghost v: Json) returns (report: Report)
    requires root == t.at && Stands(m, t, v)
    ensures report == ReportOf(v)
  {
    var desc, u := Lookup(m, root, "DESCRIPTION", t, v);
    if desc == 0 { return NoDescription; }
    ghost var dv := ChildOf(v, "DESCRIPTION").value;
    var data, w := Lookup(m, desc, "CONNECT_DATA", u, dv);
    if data == 0 { return NullLookup; }
    ghost var av := ChildOf(dv, "CONNECT_DATA").value;
    var service := LookupText(m, data, "SERVICE_NAME", w, av);
    var cid, x := Lookup(m, data, "CID", w, av);
    if cid == 0 { return NullLookup; }
    ghost var cv := ChildOf(av, "CID").value;
    var host := LookupText(m, cid, "HOST", x, cv);
    var user := LookupText(m, cid, "USER", x, cv);
    report := Found(service, host, user);
  }

  method Rewrite(b: string, n: nat) returns (text: string)
    requires 1 <= n <= |b| && 2 <= |b| && D.Fits(b, n)
    ensures text == D.Scanned(b, n)
  {
    var jsonbuf := new char[2 * n];
    var code := D.ParseConnectData(b, n, jsonbuf);
    var len := S.Strlen(jsonbuf, D.Scanned(b, n));
    text := jsonbuf[..len];
  }

  // What looking the text up leaves behind: all of the tree if the text parses,
  // nothing if it is rejected.
  ghost predicate Leaks(h: Heap, k: Heap, text: string, t: Tree) {
    match JsonParser.Parse(text, false)
    case Ok(v, _) => Holds(k, t, false) && Owned(t) && C.Denotes(t, v) && C.Adds(h, k, t)
    case Rejected(_) => k == h
    case Undefined => true
  }

  // What is reported.
  ghost predicate Reports(report: Report, text: string) {
    match JsonParser.Parse(text, false)
    case Ok(v, _) => report == ReportOf(v)
    case Rejected(_) => report == NoTree
    case Undefined => true
  }

  method ParseAndLookUp(m: Memory, text: string) returns (report: Report, ghost t: Tree)
    requires 0 !in m.nodes
    modifies m
    ensures Leaks(old(m.View()), m.View(), text, t) && Reports(report, text)
  {
    var parsed;
    parsed, t := C.Parse(m, text, false);
    if !parsed.Ok? { return NoTree, t; }
    HeldIsAllocated(m.View(), t, false);
    report := LookUpAll(m, parsed.value, t, JsonParser.Parse(text, false).value);
  }

  // The connect data of a packet, from its bytes to the report. The buffer with
  // the text is a new string at `jsonbuf`; neither it nor the tree is freed.
  // Nothing is said where parsing the text is Undefined.
  method Connect(m: Memory, b: string, n: nat) returns (report: Report, jsonbuf: Ptr, ghost t: Tree)
    requires 1 <= n <= |b| && 2 <= |b| && D.Fits(b, n) && 0 !in m.nodes
    modifies m
    ensures jsonbuf !in old(m.texts)
    ensures Leaks(WithText(old(m.View()), jsonbuf, D.Scanned(b, n)), m.View(), D.Scanned(b, n), t)
    ensures Reports(report, D.Scanned(b, n))
  {
    var text := Rewrite(b, n);
    jsonbuf := m.Strdup(text);
    report, t := ParseAndLookUp(m, m.texts[jsonbuf]);
  }

  function WithText(h: Heap, p: Ptr, text: string): Heap {
    h.(texts := h.texts[p := text])
  }

  // On the text of a descriptor that fits, the report follows its paths.
  method ConnectDescriptor(m: Memory, b: string, n: nat, ghost ns: D.Nodes) returns (report: Report)
    requires D.Legible(ns) && DJ.Literals(ns) && D.Chars(ns) + D.Inner(ns) >= 2
    requires n <= |b| && b[..n] == D.Render(ns) && 0 !in m.nodes
    modifies m
    ensures var root := Some(D.Nested(DJ.Read(ns)));
            && (report == NoDescription <==> AtPath(root, DESCRIPTION) == None)
            && (report == NullLookup <==> AtPath(root, DESCRIPTION).Some? && AtPath(root, CID) == None)
            && (report.Found? ==> report == Found(AtomAt(AtPath(root, SERVICE_NAME)),
                                                  AtomAt(AtPath(root, HOST)), AtomAt(AtPath(root, USER))))
            && report != NoTree
  {
    D.ScanSeesOnly(b, n);
    D.ScanIsJson(ns);
    D.TwiceTheInput(ns);
    D.TextFits(b, n);
    DJ.DescriptorIsRead(ns, false);
    ReportFollowsPaths(DJ.Read(ns));
    var jsonbuf;
    ghost var t;
    report, jsonbuf, t := Connect(m, b, n);
  }
}
