/**
 * The Ansible dynamic-inventory document built from the results of a network
 * scan, and a declarative specification of what that document contains.
 *
 * The scan results are a sequence of mappings, each listing (host name,
 * address) pairs. Everything below is stated over the pairs read front to
 * back: mapping by mapping, and pair by pair inside each mapping.
 */
module Inventory {

  type Name = string
  type Address = string

  /** One entry of a scan-result mapping: a host name and one address found for it. */
  datatype Pair = Pair(name: Name, address: Address)

  /** The variables of one host: the addresses collected for it, under the key `ip`. */
  datatype HostVars = HostVars(ip: seq<Address>)

  /** The `_meta` object: per-host variables, keyed by host name. */
  datatype Meta = Meta(hostvars: map<Name, HostVars>)

  /** The `all` group: it has no hosts of its own, only child groups. */
  datatype AllGroup = AllGroup(children: seq<string>)

  /** The `ungrouped` group: the host names it lists. */
  datatype HostGroup = HostGroup(hosts: seq<Name>)

  /** The whole document, with its three top-level keys `_meta`, `all` and `ungrouped`. */
  datatype Document = Document(meta: Meta, all: AllGroup, ungrouped: HostGroup)

  /** The name of the one group every discovered host is put in. */
  const UngroupedName: string := "ungrouped"

  /** The document assembled from the built host table and host list. */
  function Assemble(hostvars: map<Name, HostVars>, hosts: seq<Name>): (doc: Document)
    ensures doc.meta.hostvars == hostvars
    ensures doc.all.children == [UngroupedName]
    ensures doc.ungrouped.hosts == hosts
  {
    Document(Meta(hostvars), AllGroup([UngroupedName]), HostGroup(hosts))
  }

  // ---------------------------------------------------------------------------
  // Reading the scan results
  // ---------------------------------------------------------------------------

  /** The scan results as one sequence of pairs, in the order they are visited. */
  function Flatten(found: seq<seq<Pair>>): seq<Pair>
  {
    if found == [] then [] else Flatten(found[..|found| - 1]) + found[|found| - 1]
  }

  /** The host names that occur in ps. */
  function Names(ps: seq<Pair>): set<Name>
  {
    set p | p in ps :: p.name
  }

  /** The host names of ps, one per pair, in order. */
  function NameList(ps: seq<Pair>): seq<Name>
  {
    seq(|ps|, i requires 0 <= i < |ps| => ps[i].name)
  }

  predicate NoDuplicates<T(==)>(s: seq<T>)
  {
    forall i, j :: 0 <= i < j < |s| ==> s[i] != s[j]
  }

  /** The position of the first pair in ps whose host name is name. */
  function FirstIndex(ps: seq<Pair>, name: Name): (k: nat)
    requires name in Names(ps)
    ensures k < |ps| && ps[k].name == name
    ensures forall i :: 0 <= i < k ==> ps[i].name != name
  {
    var prefix := ps[..|ps| - 1];
    if name in Names(prefix) then
      FirstIndex(prefix, name)
    else
      assert forall i :: 0 <= i < |ps| - 1 ==> ps[i] == prefix[i] && prefix[i] in prefix;
      |ps| - 1
  }

  // ---------------------------------------------------------------------------
  // The two tables the builder produces, as functions of the pairs
  // ---------------------------------------------------------------------------

  /** Each host name of ps once, in the order in which it first appears. */
  function FirstSeen(ps: seq<Pair>): seq<Name>
  {
    if ps == [] then []
    else
      var seen := FirstSeen(ps[..|ps| - 1]);
      var name := ps[|ps| - 1].name;
      if name in seen then seen else seen + [name]
  }

  /** Every address ps holds for name, in discovery order, repeats included. */
  function AddressesOf(ps: seq<Pair>, name: Name): seq<Address>
  {
    if ps == [] then []
    else
      var last := ps[|ps| - 1];
      AddressesOf(ps[..|ps| - 1], name) + (if last.name == name then [last.address] else [])
  }

  /** One entry per host name found, holding all of that host's addresses. */
  function HostvarsOf(ps: seq<Pair>): map<Name, HostVars>
  {
    map n | n in Names(ps) :: HostVars(AddressesOf(ps, n))
  }

  /** The inventory document the scan results ps call for. */
  function InventoryOf(ps: seq<Pair>): Document
  {
    Assemble(HostvarsOf(ps), FirstSeen(ps))
  }

  /**
   * The shape every inventory document has: `all` has the single child
   * `ungrouped`, `ungrouped` lists each host once, the hosts with variables
   * are exactly the listed hosts, and each of them has at least one address.
   */
  ghost predicate WellFormed(doc: Document)
  {
    && doc.all.children == [UngroupedName]
    && NoDuplicates(doc.ungrouped.hosts)
    && (forall n :: n in doc.meta.hostvars <==> n in doc.ungrouped.hosts)
    && (forall n :: n in doc.meta.hostvars ==> doc.meta.hostvars[n].ip != [])
  }

  /** The number of addresses held by the hosts in the list hosts. */
  function AddressTotal(hostvars: map<Name, HostVars>, hosts: seq<Name>): nat
  {
    if hosts == [] then 0
    else
      var h := hosts[|hosts| - 1];
      AddressTotal(hostvars, hosts[..|hosts| - 1]) + (if h in hostvars then |hostvars[h].ip| else 0)
  }

  // ---------------------------------------------------------------------------
  // One step: appending a pair
  // ---------------------------------------------------------------------------

  /** Appending a pair adds its name to the names found. */
  lemma NamesSnoc(ps: seq<Pair>, p: Pair)
    ensures Names(ps + [p]) == Names(ps) + {p.name}
  {
  }

  /** Reading one more mapping appends its pairs. */
  lemma {:induction false} FlattenSnoc(found: seq<seq<Pair>>, i: nat)
    requires i < |found|
    ensures Flatten(found[..i + 1]) == Flatten(found[..i]) + found[i]
  {
    assert found[..i + 1][..i] == found[..i];
  }

  /** Reading one more pair of a mapping appends that pair. */
  lemma ExtendPrefix(done: seq<Pair>, ps: seq<Pair>, j: nat)
    requires j < |ps|
    ensures done + ps[..j + 1] == (done + ps[..j]) + [ps[j]]
  {
  }

  /** Appending a pair adds its name at the end of the first-seen list, unless it is already there. */
  lemma FirstSeenSnoc(ps: seq<Pair>, p: Pair)
    ensures FirstSeen(ps + [p]) ==
      if p.name in FirstSeen(ps) then FirstSeen(ps) else FirstSeen(ps) + [p.name]
  {
  }

  /** Appending a pair appends its address to its own host's addresses only. */
  lemma AddressesOfSnoc(ps: seq<Pair>, p: Pair, name: Name)
    ensures AddressesOf(ps + [p], name) ==
      AddressesOf(ps, name) + (if p.name == name then [p.address] else [])
  {
  }

  /** A host has no address exactly when its name does not occur. */
  lemma {:induction false} AddressesOfEmpty(ps: seq<Pair>, name: Name)
    ensures AddressesOf(ps, name) == [] <==> name !in Names(ps)
  {
    if ps != [] {
      var prefix, last := ps[..|ps| - 1], ps[|ps| - 1];
      assert ps == prefix + [last];
      AddressesOfEmpty(prefix, name);
      NamesSnoc(prefix, last);
    }
  }

  /**
   * Appending a pair appends its address to its host's entry, creating the
   * entry with an empty list first when the host is new; other entries stay.
   */
  lemma HostvarsSnoc(ps: seq<Pair>, p: Pair)
    ensures
      var hv := HostvarsOf(ps);
      var prior := if p.name in hv then hv[p.name].ip else [];
      HostvarsOf(ps + [p]) == hv[p.name := HostVars(prior + [p.address])]
  {
    var hv := HostvarsOf(ps);
    var prior := if p.name in hv then hv[p.name].ip else [];
    var lhs := HostvarsOf(ps + [p]);
    var rhs := hv[p.name := HostVars(prior + [p.address])];
    NamesSnoc(ps, p);
    assert lhs.Keys == rhs.Keys;
    forall n | n in lhs
      ensures lhs[n] == rhs[n]
    {
      AddressesOfSnoc(ps, p, n);
      if n == p.name && p.name !in hv {
        AddressesOfEmpty(ps, n);
      }
    }
  }

  /**
   * One step of the builder loop: recording one more pair in tables that
   * match the pairs so far yields the tables of the longer sequence.
   */
  lemma RecordPair(ps: seq<Pair>, p: Pair, hostvars: map<Name, HostVars>, hosts: seq<Name>)
    requires hosts == FirstSeen(ps) && hostvars == HostvarsOf(ps)
    ensures FirstSeen(ps + [p]) == if p.name !in hosts then hosts + [p.name] else hosts
    ensures
      var created := if p.name !in hostvars then hostvars[p.name := HostVars([])] else hostvars;
      HostvarsOf(ps + [p]) == created[p.name := HostVars(created[p.name].ip + [p.address])]
  {
    FirstSeenSnoc(ps, p);
    HostvarsSnoc(ps, p);
  }

  // ---------------------------------------------------------------------------
  // The host list: each name once, in first-seen order
  // ---------------------------------------------------------------------------

  /** The host list names exactly the hosts found. */
  lemma {:induction false} FirstSeenNames(ps: seq<Pair>)
    ensures forall n :: n in FirstSeen(ps) <==> n in Names(ps)
  {
    if ps != [] {
      var prefix, last := ps[..|ps| - 1], ps[|ps| - 1];
      assert ps == prefix + [last];
      FirstSeenNames(prefix);
      FirstSeenSnoc(prefix, last);
      NamesSnoc(prefix, last);
    }
  }

  /** The host list holds no name twice. */
  lemma {:induction false} FirstSeenNoDuplicates(ps: seq<Pair>)
    ensures NoDuplicates(FirstSeen(ps))
  {
    if ps != [] {
      var prefix, last := ps[..|ps| - 1], ps[|ps| - 1];
      assert ps == prefix + [last];
      FirstSeenNoDuplicates(prefix);
      FirstSeenSnoc(prefix, last);
    }
  }

  /** The first occurrence of a name does not move when a pair is appended. */
  lemma FirstIndexSnoc(ps: seq<Pair>, p: Pair, name: Name)
    requires name in Names(ps)
    ensures name in Names(ps + [p]) && FirstIndex(ps + [p], name) == FirstIndex(ps, name)
  {
  }

  /** The host list is ordered by the position at which each name first appears. */
  lemma {:induction false} FirstSeenOrder(ps: seq<Pair>)
    ensures forall n :: n in FirstSeen(ps) ==> n in Names(ps)
    ensures forall i, j :: 0 <= i < j < |FirstSeen(ps)| ==>
      FirstIndex(ps, FirstSeen(ps)[i]) < FirstIndex(ps, FirstSeen(ps)[j])
  {
    FirstSeenNames(ps);
    if ps != [] {
      var prefix, last := ps[..|ps| - 1], ps[|ps| - 1];
      assert ps == prefix + [last];
      var r, r' := FirstSeen(prefix), FirstSeen(ps);
      FirstSeenOrder(prefix);
      FirstSeenNames(prefix);
      FirstSeenSnoc(prefix, last);
      forall i, j | 0 <= i < j < |r'|
        ensures FirstIndex(ps, r'[i]) < FirstIndex(ps, r'[j])
      {
        assert r'[i] == r[i];
        FirstIndexSnoc(prefix, last, r[i]);
        if j < |r| {
          assert r'[j] == r[j];
          FirstIndexSnoc(prefix, last, r[j]);
        } else {
          assert r'[j] == last.name && last.name !in Names(prefix);
        }
      }
    }
  }

  /** Dropping the common last element of two duplicate-free lists with the same elements. */
  lemma DropLastSameElements<T>(a: seq<T>, b: seq<T>, x: T)
    requires NoDuplicates(a + [x]) && NoDuplicates(b + [x])
    requires forall n :: n in a + [x] <==> n in b + [x]
    ensures forall n :: n in a <==> n in b
  {
    forall n | n in a
      ensures n in b
    {
      var k :| 0 <= k < |a| && a[k] == n;
      assert (a + [x])[k] == n && (a + [x])[|a|] == x;
      assert n in b + [x] && n != x;
    }
    forall n | n in b
      ensures n in a
    {
      var k :| 0 <= k < |b| && b[k] == n;
      assert (b + [x])[k] == n && (b + [x])[|b|] == x;
      assert n in a + [x] && n != x;
    }
  }

  /** Two duplicate-free lists with the same elements, both ordered by increasing key, are equal. */
  lemma {:induction false} OrderedByKeyUnique<T>(key: map<T, nat>, a: seq<T>, b: seq<T>)
    requires forall n :: n in a ==> n in key
    requires forall n :: n in a <==> n in b
    requires NoDuplicates(a) && NoDuplicates(b)
    requires forall i, j :: 0 <= i < j < |a| ==> key[a[i]] < key[a[j]]
    requires forall i, j :: 0 <= i < j < |b| ==> key[b[i]] < key[b[j]]
    ensures a == b
    decreases |a|
  {
    assert (a == []) == (b == []) by {
      if a != [] {
        assert a[0] in b;
      }
      if b != [] {
        assert b[0] in a;
      }
    }
    if a != [] {
      var x, y := a[|a| - 1], b[|b| - 1];
      assert x == y by {
        assert x in a && y in b;
      }
      var a', b' := a[..|a| - 1], b[..|b| - 1];
      assert a == a' + [x] && b == b' + [x];
      DropLastSameElements(a', b', x);
      OrderedByKeyUnique(key, a', b');
    }
  }

  /**
   * The host list is the one and only duplicate-free list of the names found
   * that is ordered by the position at which each name first appears.
   */
  lemma FirstSeenCharacterized(ps: seq<Pair>, hosts: seq<Name>)
    requires NoDuplicates(hosts)
    requires forall n :: n in hosts <==> n in Names(ps)
    requires forall i, j :: 0 <= i < j < |hosts| ==> FirstIndex(ps, hosts[i]) < FirstIndex(ps, hosts[j])
    ensures hosts == FirstSeen(ps)
  {
    FirstSeenNames(ps);
    FirstSeenNoDuplicates(ps);
    FirstSeenOrder(ps);
    var key := map n | n in Names(ps) :: FirstIndex(ps, n);
    OrderedByKeyUnique(key, hosts, FirstSeen(ps));
  }

  lemma {:induction false} DistinctCardinality<T>(s: seq<T>)
    requires NoDuplicates(s)
    ensures |set x | x in s| == |s|
  {
    if s != [] {
      var init, last := s[..|s| - 1], s[|s| - 1];
      assert s == init + [last];
      DistinctCardinality(init);
      assert (set x | x in s) == (set x | x in init) + {last};
      assert last !in (set x | x in init);
    }
  }

  /** The host list has exactly as many entries as there are distinct names found. */
  lemma FirstSeenLength(ps: seq<Pair>)
    ensures |FirstSeen(ps)| == |Names(ps)|
  {
    FirstSeenNames(ps);
    FirstSeenNoDuplicates(ps);
    DistinctCardinality(FirstSeen(ps));
    assert (set x | x in FirstSeen(ps)) == Names(ps);
  }

  // ---------------------------------------------------------------------------
  // The host variables: every address kept, in discovery order
  // ---------------------------------------------------------------------------

  /** A host holds one address per pair that carries its name. */
  lemma {:induction false} AddressesOfCount(ps: seq<Pair>, name: Name)
    ensures |AddressesOf(ps, name)| == multiset(NameList(ps))[name]
  {
    if ps != [] {
      var prefix, last := ps[..|ps| - 1], ps[|ps| - 1];
      assert ps == prefix + [last];
      AddressesOfCount(prefix, name);
      assert NameList(ps) == NameList(prefix) + [last.name];
    }
  }

  /**
   * Each address occurs in a host's list as many times as the pair of that
   * host and that address was found: nothing is merged, dropped or invented.
   */
  lemma {:induction false} AddressesOfMultiplicity(ps: seq<Pair>, name: Name, a: Address)
    ensures multiset(AddressesOf(ps, name))[a] == multiset(ps)[Pair(name, a)]
  {
    if ps != [] {
      var prefix, last := ps[..|ps| - 1], ps[|ps| - 1];
      assert ps == prefix + [last];
      AddressesOfMultiplicity(prefix, name, a);
      AddressesOfSnoc(prefix, last, name);
    }
  }

  /** An address is in a host's list exactly when it was found for that host. */
  lemma {:induction false} AddressesOfFound(ps: seq<Pair>, name: Name)
    ensures forall a :: a in AddressesOf(ps, name) <==> Pair(name, a) in ps
  {
    forall a
      ensures a in AddressesOf(ps, name) <==> Pair(name, a) in ps
    {
      AddressesOfMultiplicity(ps, name, a);
    }
  }

  /**
   * Addresses keep their discovery order: the list for the pairs of ps
   * followed by qs is the list for ps followed by the list for qs.
   */
  lemma {:induction false} AddressesOfAppend(ps: seq<Pair>, qs: seq<Pair>, name: Name)
    ensures AddressesOf(ps + qs, name) == AddressesOf(ps, name) + AddressesOf(qs, name)
    decreases |qs|
  {
    if qs != [] {
      var init, last := qs[..|qs| - 1], qs[|qs| - 1];
      assert qs == init + [last];
      assert ps + qs == (ps + init) + [last];
      AddressesOfAppend(ps, init, name);
      AddressesOfSnoc(ps + init, last, name);
      AddressesOfSnoc(init, last, name);
    } else {
      assert ps + qs == ps;
    }
  }

  /** Adding up the addresses of a duplicate-free list of hosts after one more pair. */
  lemma {:induction false} AddressTotalSnoc(ps: seq<Pair>, p: Pair, hosts: seq<Name>)
    requires NoDuplicates(hosts)
    ensures AddressTotal(HostvarsOf(ps + [p]), hosts) ==
      AddressTotal(HostvarsOf(ps), hosts) + (if p.name in hosts then 1 else 0)
  {
    if hosts != [] {
      var init, h := hosts[..|hosts| - 1], hosts[|hosts| - 1];
      assert hosts == init + [h];
      AddressTotalSnoc(ps, p, init);
      HostvarsSnoc(ps, p);
    }
  }

  /** No address is dropped: the listed hosts hold as many addresses as there are pairs. */
  lemma {:induction false} AddressTotalIsPairCount(ps: seq<Pair>)
    ensures AddressTotal(HostvarsOf(ps), FirstSeen(ps)) == |ps|
  {
    if ps != [] {
      var prefix, last := ps[..|ps| - 1], ps[|ps| - 1];
      assert ps == prefix + [last];
      var r := FirstSeen(prefix);
      AddressTotalIsPairCount(prefix);
      FirstSeenSnoc(prefix, last);
      FirstSeenNoDuplicates(prefix);
      AddressTotalSnoc(prefix, last, r);
      if last.name !in r {
        FirstSeenNames(prefix);
        AddressesOfEmpty(prefix, last.name);
        AddressesOfSnoc(prefix, last, last.name);
        NamesSnoc(prefix, last);
        assert FirstSeen(ps) == r + [last.name];
        assert FirstSeen(ps)[..|r|] == r;
      }
    }
  }

  // ---------------------------------------------------------------------------
  // The document
  // ---------------------------------------------------------------------------

  /** Every inventory document built from scan results has the shape WellFormed describes. */
  lemma InventoryWellFormed(ps: seq<Pair>)
    ensures WellFormed(InventoryOf(ps))
  {
    FirstSeenNames(ps);
    FirstSeenNoDuplicates(ps);
    forall n | n in Names(ps)
      ensures AddressesOf(ps, n) != []
    {
      AddressesOfEmpty(ps, n);
    }
  }

  /** Scan results with no pairs give no hosts, while `all` still lists `ungrouped`. */
  lemma {:induction false} EmptyScanInventory(found: seq<seq<Pair>>)
    requires forall i :: 0 <= i < |found| ==> found[i] == []
    ensures InventoryOf(Flatten(found)) ==
      Document(Meta(map[]), AllGroup([UngroupedName]), HostGroup([]))
  {
    if found != [] {
      EmptyScanInventory(found[..|found| - 1]);
    }
    assert Flatten(found) == [];
    assert Names([]) == {};
  }
}
