/**
 * The collection builder `toPostman` and the group aggregator
 * `_groupItemByGroup`: descriptors are partitioned by `group`, one folder
 * per distinct group in order of first appearance, each folder holding its
 * descriptors' request entries in input order.
 */
module Collection {
  import opened Wrappers
  import opened Sequences
  import opened ApiDoc
  import opened Endpoint

  const SchemaUrl := "https://schema.getpostman.com/json/collection/v2.1.0/collection.json"

  /** The apiDoc project record: `title` and `name` may be absent. */
  datatype Project = Project(title: Option<string>, name: Option<string>)

  /** `info`: `name` is absent when neither a title nor a name is given. */
  datatype Info = Info(name: Option<string>, schema: string)

  /** A folder of the collection. */
  datatype GroupEntry = GroupEntry(name: string, description: string, item: seq<RequestEntry>)

  /** The Postman collection (schema v2.1.0). */
  datatype Document = Document(info: Info, item: seq<GroupEntry>)

  /** JavaScript truthiness of an optional string: present and not empty. */
  predicate Truthy(s: Option<string>) {
    s.Some? && s.value != ""
  }

  /** `addInfo`: `title || name`, and the fixed schema URL. */
  function InfoOf(project: Project): (info: Info)
    ensures Truthy(project.title) ==> info.name == project.title
    ensures !Truthy(project.title) ==> info.name == project.name
    ensures info.schema == SchemaUrl
  {
    Info(if Truthy(project.title) then project.title else project.name, SchemaUrl)
  }

  /** Some descriptor of `ds` belongs to group `k`. */
  predicate HasGroup(ds: seq<Descriptor>, k: string) {
    exists i :: 0 <= i < |ds| && ds[i].group == k
  }

  lemma HasGroupSnoc(ds: seq<Descriptor>, k: string)
    requires ds != []
    ensures HasGroup(ds, k) <==> HasGroup(ds[..|ds| - 1], k) || ds[|ds| - 1].group == k
  {
    var init := ds[..|ds| - 1];
    if HasGroup(ds, k) && ds[|ds| - 1].group != k {
      var i :| 0 <= i < |ds| && ds[i].group == k;
      assert init[i].group == k;
    }
    if HasGroup(init, k) {
      var i :| 0 <= i < |init| && init[i].group == k;
      assert ds[i].group == k;
    }
  }

  /** The distinct groups of `ds`, in order of first appearance. */
  function GroupKeys(ds: seq<Descriptor>): (ks: seq<string>)
    ensures forall i, j :: 0 <= i < j < |ks| ==> ks[i] != ks[j]
    ensures forall k :: k in ks <==> HasGroup(ds, k)
    decreases |ds|
  {
    if ds == [] then []
    else
      var ks := GroupKeys(ds[..|ds| - 1]);
      var g := ds[|ds| - 1].group;
      assert forall k :: HasGroup(ds, k) <==> HasGroup(ds[..|ds| - 1], k) || k == g by {
        forall k ensures HasGroup(ds, k) <==> HasGroup(ds[..|ds| - 1], k) || k == g {
          HasGroupSnoc(ds, k);
        }
      }
      if g in ks then ks else ks + [g]
  }

  /** The descriptors of group `k`, in input order. */
  function Members(ds: seq<Descriptor>, k: string): (ms: seq<Descriptor>)
    ensures forall d :: d in ms ==> d in ds && d.group == k
    decreases |ds|
  {
    if ds == [] then []
    else
      var init := ds[..|ds| - 1];
      var last := ds[|ds| - 1];
      assert forall d :: d in init ==> d in ds;
      Members(init, k) + (if last.group == k then [last] else [])
  }

  /** A group keeps its descriptors in input order, and holds all descriptors of that group. */
  lemma {:induction false} MembersInOrder(ds: seq<Descriptor>, k: string)
    ensures Subsequence(Members(ds, k), ds)
    ensures forall i :: 0 <= i < |ds| && ds[i].group == k ==> ds[i] in Members(ds, k)
    decreases |ds|
  {
    if ds != [] {
      var init := ds[..|ds| - 1];
      var last := ds[|ds| - 1];
      var m := Members(init, k);
      MembersInOrder(init, k);
      if last.group == k {
        assert (m + [last])[..|m|] == m;
      } else {
        assert Members(ds, k) == m;
      }
      forall i | 0 <= i < |ds| && ds[i].group == k ensures ds[i] in Members(ds, k) {
        if i < |init| { assert init[i] == ds[i]; }
      }
    }
  }

  /** A key that no descriptor has selects nothing. */
  lemma NoMembers(ds: seq<Descriptor>, k: string)
    requires k !in GroupKeys(ds)
    ensures Members(ds, k) == []
  {
  }

  /** The groups' descriptors for the keys `ks`, one group after the other. */
  function Concat(ks: seq<string>, ds: seq<Descriptor>): seq<Descriptor>
    decreases |ks|
  {
    if ks == [] then [] else Members(ds, ks[0]) + Concat(ks[1..], ds)
  }

  lemma {:induction false} ConcatAppend(ks: seq<string>, g: string, ds: seq<Descriptor>)
    ensures Concat(ks + [g], ds) == Concat(ks, ds) + Members(ds, g)
    decreases |ks|
  {
    if ks == [] {
      assert [] + [g] == [g];
      assert [g][1..] == [];
    } else {
      assert (ks + [g])[1..] == ks[1..] + [g];
      ConcatAppend(ks[1..], g, ds);
    }
  }

  lemma MembersSnoc(init: seq<Descriptor>, x: Descriptor, k: string)
    ensures Members(init + [x], k) == Members(init, k) + (if x.group == k then [x] else [])
  {
    var ds := init + [x];
    assert ds[..|ds| - 1] == init;
  }

  lemma MultisetOfConcat<T>(a: seq<T>, b: seq<T>, a0: seq<T>, b0: seq<T>, ma: multiset<T>, mb: multiset<T>)
    requires multiset(a) == multiset(a0) + ma && multiset(b) == multiset(b0) + mb
    ensures multiset(a + b) == multiset(a0 + b0) + (ma + mb)
  {
  }

  /** The rest of a list of distinct keys is distinct and does not hold its head. */
  lemma DistinctTail(ks: seq<string>)
    requires ks != []
    requires forall i, j :: 0 <= i < j < |ks| ==> ks[i] != ks[j]
    ensures forall i, j :: 0 <= i < j < |ks[1..]| ==> ks[1..][i] != ks[1..][j]
    ensures ks[0] !in ks[1..]
    ensures forall g :: g in ks <==> g == ks[0] || g in ks[1..]
  {
    assert ks == [ks[0]] + ks[1..];
    forall i, j | 0 <= i < j < |ks[1..]| ensures ks[1..][i] != ks[1..][j] {
      assert ks[1..][i] == ks[i + 1] && ks[1..][j] == ks[j + 1];
    }
  }

  lemma {:induction false} ConcatSnoc(ks: seq<string>, init: seq<Descriptor>, x: Descriptor)
    requires forall i, j :: 0 <= i < j < |ks| ==> ks[i] != ks[j]
    ensures multiset(Concat(ks, init + [x])) ==
            multiset(Concat(ks, init)) + (if x.group in ks then multiset{x} else multiset{})
    decreases |ks|
  {
    if ks != [] {
      var k := ks[0];
      var tail := ks[1..];
      assert Concat(ks, init + [x]) == Members(init + [x], k) + Concat(tail, init + [x]);
      assert Concat(ks, init) == Members(init, k) + Concat(tail, init);
      MembersSnoc(init, x, k);
      DistinctTail(ks);
      ConcatSnoc(tail, init, x);
      var mk := if x.group == k then multiset{x} else multiset{};
      var mt := if x.group in tail then multiset{x} else multiset{};
      MultisetOfConcat(Members(init + [x], k), Concat(tail, init + [x]),
                       Members(init, k), Concat(tail, init), mk, mt);
      assert mk + mt == if x.group in ks then multiset{x} else multiset{};
    }
  }

  /**
   * Grouping loses and duplicates nothing: the groups' descriptors, one
   * group after the other, are a permutation of the input.
   */
  lemma {:induction false} GroupingIsPermutation(ds: seq<Descriptor>)
    ensures multiset(Concat(GroupKeys(ds), ds)) == multiset(ds)
    decreases |ds|
  {
    if ds != [] {
      var init := ds[..|ds| - 1];
      var x := ds[|ds| - 1];
      var ks := GroupKeys(init);
      assert ds == init + [x];
      GroupingIsPermutation(init);
      ConcatSnoc(ks, init, x);
      if x.group !in ks {
        ConcatAppend(ks, x.group, ds);
        NoMembers(init, x.group);
        assert Members(ds, x.group) == [x];
      }
    }
  }

  /** Every descriptor of group `k2` comes after some descriptor of group `k1`. */
  predicate Precedes(ds: seq<Descriptor>, k1: string, k2: string) {
    forall b :: 0 <= b < |ds| && ds[b].group == k2 ==> exists a :: 0 <= a < b && ds[a].group == k1
  }

  /**
   * Groups come in order of first appearance: for two groups listed in
   * this order, every descriptor of the second is preceded by one of the first.
   */
  lemma {:induction false} GroupsInFirstSeenOrder(ds: seq<Descriptor>)
    ensures forall i, j :: 0 <= i < j < |GroupKeys(ds)| ==> Precedes(ds, GroupKeys(ds)[i], GroupKeys(ds)[j])
    decreases |ds|
  {
    if ds != [] {
      var init := ds[..|ds| - 1];
      var x := ds[|ds| - 1];
      var ks' := GroupKeys(init);
      var ks := GroupKeys(ds);
      GroupsInFirstSeenOrder(init);
      forall i, j | 0 <= i < j < |ks| ensures Precedes(ds, ks[i], ks[j]) {
        assert ks[i] == ks'[i];
        assert HasGroup(init, ks[i]);
        var a0 :| 0 <= a0 < |init| && init[a0].group == ks[i];
        forall b | 0 <= b < |ds| && ds[b].group == ks[j]
          ensures exists a :: 0 <= a < b && ds[a].group == ks[i]
        {
          if j < |ks'| {
            assert ks[j] == ks'[j];
            assert Precedes(init, ks'[i], ks'[j]);
            var b' := b;
            if b == |ds| - 1 {
              assert HasGroup(init, ks[j]);
              b' :| 0 <= b' < |init| && init[b'].group == ks[j];
            } else {
              assert init[b].group == ks[j];
            }
            var a :| 0 <= a < b' && init[a].group == ks'[i];
            assert ds[a].group == ks[i];
          } else {
            assert ks[j] == x.group && x.group !in ks';
            assert ds[a0].group == ks[i];
          }
        }
      }
    }
  }

  /** The request entries of some descriptors, in their order. */
  function EntriesOf(ms: seq<Descriptor>, table: Table): (es: seq<RequestEntry>)
    requires forall d :: d in ms ==> Convertible(d)
    ensures |es| == |ms|
    ensures forall i :: 0 <= i < |ms| ==> es[i] == EntryOf(ms[i], table)
  {
    seq(|ms|, i requires 0 <= i < |ms| => EntryOf(ms[i], table))
  }

  /**
   * `_groupItemByGroup`: one folder per group. Folder names are pairwise
   * distinct and each is the group of some descriptor; every folder has an
   * empty description and holds exactly the entries of its group's
   * descriptors, in input order.
   */
  function GroupItems(ds: seq<Descriptor>, table: Table): (r: seq<GroupEntry>)
    requires forall d :: d in ds ==> Convertible(d)
    ensures |r| == |GroupKeys(ds)| && forall g :: 0 <= g < |r| ==> r[g].name == GroupKeys(ds)[g]
    ensures forall i, j :: 0 <= i < j < |r| ==> r[i].name != r[j].name
    ensures forall g :: 0 <= g < |r| ==> r[g].description == ""
    ensures forall g :: 0 <= g < |r| ==> exists i :: 0 <= i < |ds| && ds[i].group == r[g].name
    ensures forall g :: 0 <= g < |r| ==> r[g].item == EntriesOf(Members(ds, r[g].name), table)
  {
    var ks := GroupKeys(ds);
    var r := seq(|ks|, i requires 0 <= i < |ks| => GroupEntry(ks[i], "", EntriesOf(Members(ds, ks[i]), table)));
    assert forall g :: 0 <= g < |r| ==> exists i :: 0 <= i < |ds| && ds[i].group == r[g].name by {
      forall g | 0 <= g < |r| ensures exists i :: 0 <= i < |ds| && ds[i].group == r[g].name {
        assert r[g].name == ks[g] && ks[g] in ks;
        assert HasGroup(ds, ks[g]);
      }
    }
    r
  }

  /** The entry of the `m`-th descriptor is among the entries. */
  lemma EntryAmongEntries(ms: seq<Descriptor>, table: Table, m: nat)
    requires forall d :: d in ms ==> Convertible(d)
    requires m < |ms|
    ensures EntryOf(ms[m], table) in EntriesOf(ms, table)
  {
    assert EntriesOf(ms, table)[m] == EntryOf(ms[m], table);
  }

  /** Some folder named `group` holds the entry `e`. */
  predicate FiledIn(items: seq<GroupEntry>, group: string, e: RequestEntry) {
    exists g :: 0 <= g < |items| && items[g].name == group && e in items[g].item
  }

  /** A descriptor sits among the members of its own group. */
  lemma MemberListed(ds: seq<Descriptor>, i: nat) returns (m: nat)
    requires i < |ds|
    ensures m < |Members(ds, ds[i].group)| && Members(ds, ds[i].group)[m] == ds[i]
  {
    MembersInOrder(ds, ds[i].group);
    var ms := Members(ds, ds[i].group);
    m :| 0 <= m < |ms| && ms[m] == ds[i];
  }

  /** The folder of a descriptor's group: its position among the keys. */
  lemma KeyListed(ds: seq<Descriptor>, i: nat) returns (g: nat)
    requires i < |ds|
    ensures g < |GroupKeys(ds)| && GroupKeys(ds)[g] == ds[i].group
  {
    var ks := GroupKeys(ds);
    assert HasGroup(ds, ds[i].group);
    g :| 0 <= g < |ks| && ks[g] == ds[i].group;
  }

  /** Every descriptor's entry is filed in the folder named after its group. */
  lemma EveryDescriptorFiled(ds: seq<Descriptor>, table: Table, i: nat)
    requires forall d :: d in ds ==> Convertible(d)
    requires i < |ds|
    ensures FiledIn(GroupItems(ds, table), ds[i].group, EntryOf(ds[i], table))
  {
    var items := GroupItems(ds, table);
    var g := KeyListed(ds, i);
    var m := MemberListed(ds, i);
    var ms := Members(ds, ds[i].group);
    assert items[g].name == ds[i].group && items[g].item == EntriesOf(ms, table);
    EntryAmongEntries(ms, table, m);
  }

  /**
   * `toPostman`: a fresh document whose `info` is built from the project
   * and whose folders file every descriptor's entry under its group.
   */
  function ToPostman(ds: seq<Descriptor>, project: Project, table: Table): (doc: Document)
    requires forall d :: d in ds ==> Convertible(d)
    ensures doc.info.schema == SchemaUrl
    ensures doc.info.name == if Truthy(project.title) then project.title else project.name
    ensures doc.item == GroupItems(ds, table)
    ensures forall i :: 0 <= i < |ds| ==> FiledIn(doc.item, ds[i].group, EntryOf(ds[i], table))
  {
    var items := GroupItems(ds, table);
    forall i | 0 <= i < |ds| ensures FiledIn(items, ds[i].group, EntryOf(ds[i], table)) {
      EveryDescriptorFiled(ds, table, i);
    }
    Document(InfoOf(project), items)
  }
}
