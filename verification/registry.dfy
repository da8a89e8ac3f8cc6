/** The backend registry of the HTTP-registered drafts (p2/proxy2.go,
    server/srvr_listener.go, server/socket_server/srvr_listener.go): a table
    of `ServerConn` records, insert-if-absent with a rollback when the
    display name is already taken, deletion by key or by the first matching
    address, the two-strike health sweep, and the links of the listing
    page.

    A `sync.Map.Range` pass is modelled by an `order`: a sequence holding
    each key of the table once, in the (unspecified) visiting order. */
module Registry {
  import opened Base
  import opened SyncMaps

  /** A registered backend (`ServerConn`). `addr` is the backend address
      (the URL host in the socket draft); `failed` records one refused
      probe. */
  datatype Entry = Entry(path: string, name: string, website: bool, addr: string, failed: bool)

  type Table = map<string, Entry>

  /** `order` is one `Range` pass over `reg`: every key exactly once. */
  ghost predicate Enumerates<V>(order: seq<string>, reg: map<string, V>) {
    NoDup(order) && (forall k :: k in reg <==> k in order)
  }

  /** The field a draft keys its table by. The comments and every lookup
      use the path; `store` and `loadOrStore` of p2/proxy2.go and
      server/srvr_listener.go use the address. */
  datatype KeyBy = ByPath | ByAddr

  function KeyOf(keying: KeyBy, e: Entry): string {
    match keying
    case ByPath => e.path
    case ByAddr => e.addr
  }

  /** Every entry sits under its own path: the invariant path keying
      keeps. */
  predicate KeyedByPath(reg: Table) {
    forall k :: k in reg ==> reg[k].path == k
  }

  /** No two entries with different paths share a non-empty name. */
  predicate NamesUnique(reg: Table) {
    forall k1, k2 :: k1 in reg && k2 in reg && reg[k1].name != "" && reg[k1].name == reg[k2].name ==>
      reg[k1].path == reg[k2].path
  }

  // ---------------------------------------------------------------------
  // Insertion with name de-duplication
  // ---------------------------------------------------------------------

  /** Some entry with another path already carries the non-empty name of
      `e`. */
  predicate NameClash(reg: Table, e: Entry) {
    exists k :: k in reg && reg[k].name != "" && reg[k].name == e.name && reg[k].path != e.path
  }

  /** The de-duplication pass: visit the keys in `order`, skip unnamed
      entries and entries with the new entry's path, and stop at the first
      entry carrying the same name. */
  function ScanForClash(reg: Table, order: seq<string>, e: Entry): (found: bool)
    ensures found ==> NameClash(reg, e)
  {
    if order == [] then false
    else
      var k := order[0];
      if k in reg && reg[k].name != "" && reg[k].name == e.name && reg[k].path != e.path then true
      else ScanForClash(reg, order[1..], e)
  }

  /** Whatever order the pass visits the keys in, it finds a clash exactly
      when there is one. */
  lemma {:induction false} ScanForClashComplete(reg: Table, order: seq<string>, e: Entry)
    requires forall k :: k in reg ==> k in order
    ensures ScanForClash(reg, order, e) <==> NameClash(reg, e)
  {
    if NameClash(reg, e) {
      var k :| k in reg && reg[k].name != "" && reg[k].name == e.name && reg[k].path != e.path;
      ScanFinds(reg, order, e, k);
    }
  }

  /** A pass over a sequence holding a clashing key finds a clash. */
  lemma {:induction false} ScanFinds(reg: Table, order: seq<string>, e: Entry, k: string)
    requires k in order && k in reg && reg[k].name != "" && reg[k].name == e.name && reg[k].path != e.path
    ensures ScanForClash(reg, order, e)
  {
    if order[0] != k {
      ScanFinds(reg, order[1..], e, k);
    }
  }

  /** The reply text and the table after one registration. */
  datatype Registered = Registered(reply: string, reg: Table)

  const PathExists: string := "path already exists"
  const NameExists: string := "name already exists"
  const Success: string := "success"

  /** Registration of `e`: `loadOrStore` under the draft's key; a present
      key is "path already exists"; otherwise a name clash deletes the key
      `e.path` again, as the drafts do, and replies "name already
      exists". */
  function Register(keying: KeyBy, reg: Table, e: Entry): (r: Registered)
    ensures r.reply == PathExists <==> KeyOf(keying, e) in reg
    ensures r.reply == PathExists ==> r.reg == reg
    ensures r.reply == Success ==> r.reg == reg[KeyOf(keying, e) := e]
    ensures r.reply == NameExists ==> r.reg == Delete(reg[KeyOf(keying, e) := e], e.path)
  {
    var s := LoadOrStore(reg, KeyOf(keying, e), e);
    if s.loaded then Registered(PathExists, reg)
    else if NameClash(s.m, e) then Registered(NameExists, Delete(s.m, e.path))
    else Registered(Success, s.m)
  }

  /** Under path keying a registration either adds exactly the new entry or
      leaves the table as it was; a name clash is rolled back completely. */
  lemma RegisterByPath(reg: Table, e: Entry)
    ensures var r := Register(ByPath, reg, e);
      (r.reply == Success && e.path !in reg && r.reg == reg[e.path := e]) ||
      (r.reply != Success && r.reg == reg)
  {
  }

  /** A name collides exactly when another path already carries it, and an
      empty name never does. */
  lemma {:induction false} RegisterNameRule(reg: Table, e: Entry)
    requires e.path !in reg
    ensures Register(ByPath, reg, e).reply == NameExists <==> e.name != "" && NameClash(reg, e)
  {
    var m := reg[e.path := e];
    if NameClash(m, e) {
      var k :| k in m && m[k].name != "" && m[k].name == e.name && m[k].path != e.path;
      assert k != e.path && k in reg;
    }
    if e.name != "" && NameClash(reg, e) {
      var k :| k in reg && reg[k].name != "" && reg[k].name == e.name && reg[k].path != e.path;
      assert k in m && m[k] == reg[k];
    }
  }

  /** Path keying keeps entries under their paths and display names
      unique. */
  lemma {:induction false} RegisterKeepsInvariants(reg: Table, e: Entry)
    requires KeyedByPath(reg) && NamesUnique(reg)
    ensures KeyedByPath(Register(ByPath, reg, e).reg)
    ensures NamesUnique(Register(ByPath, reg, e).reg)
  {
    var r := Register(ByPath, reg, e);
    if r.reply == Success {
      assert !NameClash(reg[e.path := e], e);
    }
  }

  /** Under address keying, as p2/proxy2.go and server/srvr_listener.go
      store entries, the rollback deletes the key `e.path`, which is not the
      key the entry went in under: the clashing entry stays. */
  lemma AddrKeyedRollbackMisses(reg: Table, e: Entry)
    requires e.addr !in reg && e.path != e.addr && e.name != "" && NameClash(reg, e)
    ensures Register(ByAddr, reg, e).reply == NameExists
    ensures e.addr in Register(ByAddr, reg, e).reg && Register(ByAddr, reg, e).reg[e.addr] == e
  {
    var k :| k in reg && reg[k].name != "" && reg[k].name == e.name && reg[k].path != e.path;
    var m := reg[e.addr := e];
    assert k != e.addr;
    assert k in m && m[k] == reg[k];
  }

  /** A concrete case: "/a" named "x" at "h1" is registered; then "/b",
      also named "x", at "h2" is refused as a duplicate name yet stays in the
      address-keyed table, while the path-keyed table is unchanged. */
  lemma AddrKeyedSample()
    ensures var first := Entry("/a", "x", true, "h1", false);
      var second := Entry("/b", "x", true, "h2", false);
      var r := Register(ByAddr, map["h1" := first], second);
      r.reply == NameExists && "h2" in r.reg
    ensures var first := Entry("/a", "x", true, "h1", false);
      var second := Entry("/b", "x", true, "h2", false);
      Register(ByPath, map["/a" := first], second) == Registered(NameExists, map["/a" := first])
  {
    var first := Entry("/a", "x", true, "h1", false);
    var second := Entry("/b", "x", true, "h2", false);
    assert "h1" in map["h1" := first];
    AddrKeyedRollbackMisses(map["h1" := first], second);
    assert NameClash(map["/a" := first, "/b" := second], second) by {
      assert "/a" in map["/a" := first, "/b" := second];
    }
    assert map["/a" := first][second.path := second] == map["/a" := first, "/b" := second];
  }

  // ---------------------------------------------------------------------
  // Deletion
  // ---------------------------------------------------------------------

  /** The deletion by address: visit the keys in `order` and delete the
      first whose entry has address `addr`, then stop. */
  function DeleteFirstAddr(reg: Table, order: seq<string>, addr: string): (r: Table)
    ensures r.Keys <= reg.Keys
    ensures forall k :: k in r ==> r[k] == reg[k]
  {
    if order == [] then reg
    else
      var k := order[0];
      if k in reg && reg[k].addr == addr then Delete(reg, k)
      else DeleteFirstAddr(reg, order[1..], addr)
  }

  /** The position of the first key in `order` whose entry has `addr`. */
  predicate FirstWithAddr(reg: Table, order: seq<string>, addr: string, i: nat) {
    i < |order| && order[i] in reg && reg[order[i]].addr == addr &&
    forall j :: 0 <= j < i ==> !(order[j] in reg && reg[order[j]].addr == addr)
  }

  /** Deletion by address removes exactly the first matching entry of the
      pass, and nothing when no entry has that address. */
  lemma {:induction false} DeleteFirstAddrSpec(reg: Table, order: seq<string>, addr: string)
    requires forall k :: k in reg && reg[k].addr == addr ==> k in order
    ensures (forall k :: k in reg ==> reg[k].addr != addr) ==> DeleteFirstAddr(reg, order, addr) == reg
    ensures (exists k :: k in reg && reg[k].addr == addr) ==>
      exists i: nat :: FirstWithAddr(reg, order, addr, i) && DeleteFirstAddr(reg, order, addr) == reg - {order[i]}
  {
    if order != [] {
      var k := order[0];
      if k in reg && reg[k].addr == addr {
        assert FirstWithAddr(reg, order, addr, 0);
      } else {
        DeleteFirstAddrSpec(reg, order[1..], addr) by {
          forall k' | k' in reg && reg[k'].addr == addr ensures k' in order[1..] {
            assert k' in order && k' != order[0];
          }
        }
        if exists k' :: k' in reg && reg[k'].addr == addr {
          var i: nat :| FirstWithAddr(reg, order[1..], addr, i) && DeleteFirstAddr(reg, order[1..], addr) == reg - {order[1..][i]};
          assert FirstWithAddr(reg, order, addr, i + 1);
        }
      }
    }
  }

  /** The reply and the table after a DELETE request. */
  function Remove(reg: Table, order: seq<string>, path: string, addr: string): (r: Option<Table>)
    ensures r.None? <==> path == "" && addr == ""
    ensures path != "" ==> r == Some(Delete(reg, path))
  {
    if path != "" then Some(Delete(reg, path))
    else if addr != "" then Some(DeleteFirstAddr(reg, order, addr))
    else None
  }

  /** A DELETE removes at most one entry. */
  lemma RemoveAtMostOne(reg: Table, order: seq<string>, path: string, addr: string)
    requires Enumerates(order, reg) && (path != "" || addr != "")
    ensures var r := Remove(reg, order, path, addr).value;
      r.Keys <= reg.Keys && |reg.Keys - r.Keys| <= 1 && forall k :: k in r ==> r[k] == reg[k]
  {
    if path == "" {
      DeleteFirstAddrSpec(reg, order, addr);
    }
  }

  // ---------------------------------------------------------------------
  // Health sweep
  // ---------------------------------------------------------------------

  /** Outcome of one probe: answered, refused ("connection refused"), or
      any other failure. */
  datatype Probe = Answered | Refused | OtherFailure

  /** The two-strike rule: a refusal after a refusal evicts, a first
      refusal marks the entry, anything else clears the mark. */
  function Step(e: Entry, p: Probe): (r: Option<Entry>)
    ensures r.None? <==> p == Refused && e.failed
    ensures r.Some? ==> r.value.failed == (p == Refused)
    ensures r.Some? ==> r.value.(failed := e.failed) == e
  {
    match p
    case Refused => if e.failed then None else Some(e.(failed := true))
    case _ => Some(e.(failed := false))
  }

  /** An entry is evicted after two refusals in a row, and only then. */
  lemma TwoStrikes(e: Entry, p: Probe, q: Probe)
    requires !e.failed
    ensures Step(e, p).Some?
    ensures Step(Step(e, p).value, q).None? <==> p == Refused && q == Refused
  {
  }

  /** What one sweep does to the entry under `k`. */
  function Swept(reg: Table, probe: string -> Probe, k: string): Option<Entry>
    requires k in reg
  {
    Step(reg[k], probe(k))
  }

  /** One `pinger` pass: each entry is probed once, in `order`, and updated
      or evicted by the two-strike rule. */
  method Sweep(reg: Table, order: seq<string>, probe: string -> Probe) returns (r: Table)
    requires Enumerates(order, reg)
    ensures forall k :: k in r <==> k in reg && Swept(reg, probe, k).Some?
    ensures forall k :: k in r ==> r[k] == Swept(reg, probe, k).value
  {
    r := reg;
    var i := 0;
    while i < |order|
      invariant 0 <= i <= |order|
      invariant forall k :: k in r ==> k in reg
      invariant forall k :: k in reg && k !in order[..i] ==> k in r && r[k] == reg[k]
      invariant forall k :: k in order[..i] ==> (k in r <==> Swept(reg, probe, k).Some?)
      invariant forall k :: k in order[..i] && k in r ==> r[k] == Swept(reg, probe, k).value
    {
      var k := order[i];
      assert k !in order[..i] by {
        forall j | 0 <= j < i ensures order[j] != k { }
      }
      assert order[..i + 1] == order[..i] + [k];
      match Step(r[k], probe(k)) {
        case None => r := Delete(r, k);
        case Some(e) => r := Store(r, k, e);
      }
      i := i + 1;
    }
    assert order[..i] == order;
  }

  // ---------------------------------------------------------------------
  // Listing page
  // ---------------------------------------------------------------------

  /** A link of the listing page: `<a href=href>text</a><br>`. */
  datatype Link = Link(href: string, text: string)

  /** The link text: the entry's name, or its key when it has none. */
  function Label(key: string, e: Entry): (l: string)
    ensures l == "" ==> key == ""
    ensures e.name != "" ==> l == e.name
    ensures e.name == "" ==> l == key
  {
    if e.name == "" then key else e.name
  }

  /** The link for key `k`, if `servePage` emits one: an entry is listed
      when it is a website or all entries are asked for. */
  function LinkOf(reg: Table, all: bool, k: string): (ls: seq<Link>)
    ensures |ls| <= 1
    ensures ls != [] <==> k in reg && (reg[k].website || all)
    ensures ls != [] ==> ls[0] == Link(k, Label(k, reg[k]))
  {
    if k in reg && (reg[k].website || all) then [Link(k, Label(k, reg[k]))] else []
  }

  /** The links of the page, in `order`. */
  function Links(reg: Table, order: seq<string>, all: bool): (ls: seq<Link>)
    ensures |ls| <= |order|
  {
    if order == [] then [] else LinkOf(reg, all, order[0]) + Links(reg, order[1..], all)
  }

  /** Every link names a registered key that is listed, with its label. */
  lemma {:induction false} LinksSound(reg: Table, order: seq<string>, all: bool, j: nat)
    requires j < |Links(reg, order, all)|
    ensures var l := Links(reg, order, all)[j];
      l.href in order && l.href in reg && (reg[l.href].website || all) && l.text == Label(l.href, reg[l.href])
  {
    var head := LinkOf(reg, all, order[0]);
    if j >= |head| {
      LinksSound(reg, order[1..], all, j - |head|);
    }
  }

  /** Every listed key of `order` has a link; `j` is its position. */
  lemma {:induction false} LinksComplete(reg: Table, order: seq<string>, all: bool, k: string) returns (j: nat)
    requires k in order && k in reg && (reg[k].website || all)
    ensures j < |Links(reg, order, all)| && Links(reg, order, all)[j].href == k
  {
    if order[0] == k {
      j := 0;
    } else {
      var t := LinksComplete(reg, order[1..], all, k);
      j := |LinkOf(reg, all, order[0])| + t;
    }
  }

  /** Over a full pass, a key is linked exactly when it is registered and
      listed, and its link carries its label. */
  lemma LinksSpec(reg: Table, order: seq<string>, all: bool, k: string)
    requires forall k :: k in reg ==> k in order
    ensures (exists j :: 0 <= j < |Links(reg, order, all)| && Links(reg, order, all)[j].href == k) <==>
      k in reg && (reg[k].website || all)
    ensures forall j :: 0 <= j < |Links(reg, order, all)| && Links(reg, order, all)[j].href == k ==>
      Links(reg, order, all)[j].text == Label(k, reg[k])
  {
    var ls := Links(reg, order, all);
    if k in reg && (reg[k].website || all) {
      var j := LinksComplete(reg, order, all, k);
    }
    forall j | 0 <= j < |ls| && ls[j].href == k
      ensures k in reg && (reg[k].website || all) && ls[j].text == Label(k, reg[k])
    {
      LinksSound(reg, order, all, j);
    }
  }

  /** The HTML of one link. */
  function LinkHtml(l: Link): (s: string)
    ensures |s| == |"<a href="| + |l.href| + |">"| + |l.text| + |"</a><br>"|
    ensures s[|"<a href="|..|"<a href="| + |l.href|] == l.href
  {
    "<a href=" + l.href + ">" + l.text + "</a><br>"
  }
}
