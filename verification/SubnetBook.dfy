/** The subnet edits against the book an operator would keep: what was last asked for each id. */
module SubnetBook {
  import opened Ipv4
  import opened Sequences
  import opened GatewayConfig
  import opened KeaSubnets

  type Book = map<int, SubnetSpec>

  /** The largest id in the book, or 0. */
  ghost function LargestId(b: Book): (m: int)
    ensures m >= 0 && (m == 0 || m in b)
    ensures forall n :: n in b ==> n <= m
    decreases |b|
  {
    if forall n :: n !in b then 0 else
    var n :| n in b;
    assert forall x :: x in b ==> x == n || x in b - {n};
    var m := LargestId(b - {n});
    if n > m then n else m
  }

  /** No subnet in the book shares an address with the new one. */
  ghost predicate Free(b: Book, subnet: Cidr) {
    forall n :: n in b ==> !ShareAddress(b[n].subnet, subnet)
  }

  /** The book after one request: an add is taken under the next id when its spec is sound and its subnet
      free, an update when its spec is sound and its id is in the book with the same subnet. */
  ghost function Noted(b: Book, op: Op): Book {
    match op
    case Add(s) => if SpecOk(s) && Free(b, s.subnet) then b[LargestId(b) + 1 := s] else b
    case Update(id, s) => if SpecOk(s) && id in b && b[id].subnet == s.subnet then b[id := s] else b
    case Delete(id) => b - {id}
  }

  ghost function NotedAll(b: Book, run: seq<Op>): Book {
    if run == [] then b else Noted(NotedAll(b, run[..|run| - 1]), run[|run| - 1])
  }

  // ---- entries and the book -------------------------------------------------------------------------

  /** The entry says what the book says under its id. */
  ghost predicate Says(b: Book, e: Entry) {
    e.id.n in b && |e.pools| == 1 && b[e.id.n] == SpecOf(e)
  }

  ghost predicate Listed(es: seq<Entry>, id: int) {
    exists i :: 0 <= i < |es| && es[i].id.n == id
  }

  /** The entries are those of the book, id by id. */
  ghost predicate Records(es: seq<Entry>, b: Book) {
    && (forall i :: 0 <= i < |es| ==> Says(b, es[i]))
    && (forall n :: n in b ==> Listed(es, n))
  }

  lemma RecordsAppended(es: seq<Entry>, b: Book, e: Entry)
    requires Records(es, b) && |e.pools| == 1 && e.id.n !in b
    ensures Records(es + [e], b[e.id.n := SpecOf(e)])
  {
    var all, after := es + [e], b[e.id.n := SpecOf(e)];
    assert all[|es|] == e;
    forall n | n in after ensures Listed(all, n) {
      if n != e.id.n {
        var i :| 0 <= i < |es| && es[i].id.n == n;
        assert all[i].id.n == n;
      }
    }
  }

  lemma RecordsReplaced(es: seq<Entry>, b: Book, i: nat, e: Entry)
    requires Records(es, b) && |e.pools| == 1 && i < |es| && e.id.n == es[i].id.n
    requires forall j :: 0 <= j < |es| && j != i ==> es[j].id.n != e.id.n
    ensures Records(es[i := e], b[e.id.n := SpecOf(e)])
  {
    var all, after := es[i := e], b[e.id.n := SpecOf(e)];
    forall j | 0 <= j < |all| ensures Says(after, all[j]) {
      assert Says(b, es[j]);
    }
    forall n | n in after ensures Listed(all, n) {
      assert Listed(es, n);
      var j :| 0 <= j < |es| && es[j].id.n == n;
      assert all[j].id.n == n;
    }
  }

  lemma {:induction false} MaxIdIsAttained(es: seq<Entry>)
    ensures MaxId(es) == 0 || exists i :: 0 <= i < |es| && SubnetId(es[i]) == MaxId(es)
  {
    if es != [] {
      var n := |es| - 1;
      MaxIdIsAttained(es[..n]);
      if MaxId(es) == SubnetId(es[n]) {
      } else if i :| 0 <= i < |es[..n]| && SubnetId(es[..n][i]) == MaxId(es[..n]) {
        assert SubnetId(es[i]) == MaxId(es);
      }
    }
  }

  lemma IdsAreRead(es: seq<Entry>, i: nat)
    requires Plan(es) && i < |es|
    ensures SubnetId(es[i]) == es[i].id.n
  {
    assert EntryOk(es[i]);
  }

  lemma LargestIsMax(es: seq<Entry>, b: Book)
    requires Plan(es) && Records(es, b)
    ensures LargestId(b) == MaxId(es)
  {
    MaxIdIsAttained(es);
    if i :| 0 <= i < |es| && SubnetId(es[i]) == MaxId(es) {
      IdsAreRead(es, i);
      assert Says(b, es[i]);
    }
    if LargestId(b) in b {
      assert Listed(es, LargestId(b));
      var i :| 0 <= i < |es| && es[i].id.n == LargestId(b);
      IdsAreRead(es, i);
    }
  }

  lemma ClashesIsShared(subnet: Cidr, other: Cidr)
    ensures (other == subnet || Overlap(other, subnet)) <==> ShareAddress(other, subnet)
  {
    OverlapIsExact(other, subnet);
    ContainsIsInterval(subnet, Network(subnet));
  }

  lemma ClashIsInTheBook(es: seq<Entry>, b: Book, subnet: Cidr)
    requires Records(es, b)
    ensures Clashes(es, subnet) <==> !Free(b, subnet)
  {
    if !Free(b, subnet) {
      var n :| n in b && ShareAddress(b[n].subnet, subnet);
      assert Listed(es, n);
      var i :| 0 <= i < |es| && es[i].id.n == n;
      assert Says(b, es[i]);
      ClashesIsShared(subnet, es[i].subnet);
    }
    if i :| 0 <= i < |es| && (es[i].subnet == subnet || Overlap(es[i].subnet, subnet)) {
      ClashesIsShared(subnet, es[i].subnet);
      assert Says(b, es[i]);
    }
  }

  // ---- one request ----------------------------------------------------------------------------------

  lemma ReloadedAppend(k: KeaConfig, es: seq<Entry>)
    requires Plan(es) && |k.subnets| == |es| + 1 && k.subnets[..|es|] == es
    ensures Reload(k).subnets == es + [Reread(k.subnets[|es|])]
  {
    forall i | 0 <= i < |es| ensures Reload(k).subnets[i] == es[i] {
      assert EntryOk(es[i]) && k.subnets[..|es|][i] == es[i];
    }
  }

  lemma ReloadedAdd(k: KeaConfig, s: SubnetSpec) returns (e: Entry)
    requires Plan(k.subnets)
    ensures Reload(AddAccepted(k, s)).subnets == k.subnets + [e]
    ensures e.id.n == MaxId(k.subnets) + 1 && |e.pools| == 1 && SpecOf(e) == s
  {
    AddReadsBack(k, s);
    ReloadedAppend(AddAccepted(k, s), k.subnets);
    e := Reread(AddAccepted(k, s).subnets[|k.subnets|]);
  }

  lemma AddIsNoted(k: KeaConfig, b: Book, s: SubnetSpec)
    requires Plan(k.subnets) && Records(k.subnets, b)
    ensures Records(Reload(AddAccepted(k, s)).subnets, b[LargestId(b) + 1 := s])
  {
    LargestIsMax(k.subnets, b);
    NewIdIsNew(b);
    AddIsRecorded(k, b, s, LargestId(b) + 1);
  }

  lemma NewIdIsNew(b: Book)
    ensures LargestId(b) + 1 !in b
  {
  }

  lemma AddIsRecorded(k: KeaConfig, b: Book, s: SubnetSpec, id: int)
    requires Plan(k.subnets) && Records(k.subnets, b) && id == MaxId(k.subnets) + 1 && id !in b
    ensures Records(Reload(AddAccepted(k, s)).subnets, b[id := s])
  {
    var e := ReloadedAdd(k, s);
    RecordsAppended(k.subnets, b, e);
  }

  lemma UpdatableIsInTheBook(k: KeaConfig, b: Book, id: int, s: SubnetSpec)
    requires Plan(k.subnets) && Records(k.subnets, b)
    ensures Updatable(k, id, s) <==> SpecOk(s) && id in b && b[id].subnet == s.subnet
  {
    var i := IndexOf(k.subnets, id);
    if i < |k.subnets| {
      IdsAreRead(k.subnets, i);
      assert Says(b, k.subnets[i]);
    }
    if id in b {
      assert Listed(k.subnets, id);
      var j :| 0 <= j < |k.subnets| && k.subnets[j].id.n == id;
      IdsAreRead(k.subnets, j);
    }
  }

  lemma UpdateIsNoted(k: KeaConfig, b: Book, id: int, s: SubnetSpec)
    requires Plan(k.subnets) && Records(k.subnets, b) && Updatable(k, id, s)
    ensures Records(Reload(UpdateAccepted(k, id, s)).subnets, b[id := s])
  {
    var es, i := Reload(UpdateAccepted(k, id, s)).subnets, IndexOf(k.subnets, id);
    UpdateReadsBack(k, id, s);
    IdsAreRead(k.subnets, i);
    forall j | 0 <= j < |k.subnets| && j != i ensures es[j] == k.subnets[j] && k.subnets[j].id.n != id {
      assert EntryOk(k.subnets[j]) && EntryOk(k.subnets[i]);
      if j < i { assert k.subnets[j].id != k.subnets[i].id; } else { assert k.subnets[i].id != k.subnets[j].id; }
    }
    assert es == k.subnets[i := es[i]];
    RecordsReplaced(k.subnets, b, i, es[i]);
  }

  lemma DeleteIsNoted(k: KeaConfig, b: Book, id: int)
    requires Plan(k.subnets) && Records(k.subnets, b)
    ensures Records(DeleteAccepted(k, id).subnets, b - {id})
  {
    var es := DeleteAccepted(k, id).subnets;
    forall i | 0 <= i < |es| ensures Says(b - {id}, es[i]) {
      DeleteMembers(k.subnets, id, es[i]);
      var j :| 0 <= j < |k.subnets| && k.subnets[j] == es[i];
      IdsAreRead(k.subnets, j);
      assert Says(b, k.subnets[j]);
    }
    forall n | n in b - {id} ensures Listed(es, n) {
      assert Listed(k.subnets, n);
      var j :| 0 <= j < |k.subnets| && k.subnets[j].id.n == n;
      IdsAreRead(k.subnets, j);
      DeleteMembers(k.subnets, id, k.subnets[j]);
    }
  }

  /** One request and the book: taken on the same condition, with the same effect. */
  lemma EditIsNoted(k: KeaConfig, b: Book, op: Op)
    requires Plan(k.subnets) && Records(k.subnets, b)
    ensures Records(Reload(Edited(k, op)).subnets, Noted(b, op))
  {
    ReloadIsIdentity(k.subnets);
    assert Reload(k).subnets == k.subnets;
    match op
    case Add(s) =>
      ClashIsInTheBook(k.subnets, b, s.subnet);
      if SpecOk(s) && Free(b, s.subnet) { AddIsNoted(k, b, s); }
    case Update(id, s) =>
      UpdatableIsInTheBook(k, b, id, s);
      if Updatable(k, id, s) { UpdateIsNoted(k, b, id, s); }
    case Delete(id) =>
      DeleteIsNoted(k, b, id);
      DeletedIsReloaded(k, id);
  }

  lemma DeletedIsReloaded(k: KeaConfig, id: int)
    requires Plan(k.subnets)
    ensures Reload(DeleteAccepted(k, id)).subnets == DeleteAccepted(k, id).subnets
  {
    DeleteKeepsPlan(k.subnets, id);
    ReloadIsIdentity(DeleteAccepted(k, id).subnets);
  }

  /** After every run of edits, each subnet in Kea's configuration says what was last asked for its id, and
      the ids are those the requests left. */
  lemma {:induction false} RunFollowsTheBook(k: KeaConfig, b: Book, run: seq<Op>)
    requires Plan(k.subnets) && Records(k.subnets, b)
    ensures Records(After(k, run).subnets, NotedAll(b, run))
  {
    if run != [] {
      var init := run[..|run| - 1];
      RunFollowsTheBook(k, b, init);
      RunKeepsPlan(k, init);
      EditIsNoted(After(k, init), NotedAll(b, init), run[|run| - 1]);
    }
  }
}
