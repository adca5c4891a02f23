/**
 * The inventory builder of `get_list`: one pass over the scan results that
 * grows the `ungrouped` host list and the per-host `hostvars` table, then
 * the assembly of the document around them.
 */
module Builder {
  import opened Inventory

  /**
   * The inner loop of the builder: records the pairs of one scan-result
   * mapping, in order, on top of the tables built from the pairs done so far.
   * A name is appended to the host list only when the list does not hold it
   * yet; a host entry is created empty the first time its name is met; every
   * address is appended to its host's entry.
   */
  method RecordMapping(hostvars: map<Name, HostVars>, ungrouped: seq<Name>, ghost done: seq<Pair>,
                       hostData: seq<Pair>)
    returns (hostvars': map<Name, HostVars>, ungrouped': seq<Name>)
    requires ungrouped == FirstSeen(done)
    requires hostvars == HostvarsOf(done)
    ensures ungrouped' == FirstSeen(done + hostData)
    ensures hostvars' == HostvarsOf(done + hostData)
  {
    hostvars', ungrouped' := hostvars, ungrouped;
    ghost var seen := done;
    var j := 0;
    while j < |hostData|
      invariant 0 <= j <= |hostData|
      invariant seen == done + hostData[..j]
      invariant ungrouped' == FirstSeen(seen)
      invariant hostvars' == HostvarsOf(seen)
    {
      var name, address := hostData[j].name, hostData[j].address;
      RecordPair(seen, hostData[j], hostvars', ungrouped');
      if name !in ungrouped' {
        ungrouped' := ungrouped' + [name];
      }
      if name !in hostvars' {
        hostvars' := hostvars'[name := HostVars([])];
      }
      hostvars' := hostvars'[name := HostVars(hostvars'[name].ip + [address])];
      ExtendPrefix(done, hostData, j);
      seen := seen + [hostData[j]];
      j := j + 1;
    }
    assert hostData[..|hostData|] == hostData;
  }

  /**
   * The builder loop of `get_list`: visits every (name, address) pair of the
   * scan results in order and returns the per-host table and the host list.
   * The list holds each host once, the table has an entry for exactly the
   * listed hosts, and no entry is empty.
   */
  method BuildHosts(found: seq<seq<Pair>>) returns (hostvars: map<Name, HostVars>, ungrouped: seq<Name>)
    ensures ungrouped == FirstSeen(Flatten(found))
    ensures hostvars == HostvarsOf(Flatten(found))
    ensures NoDuplicates(ungrouped)
    ensures forall n :: n in hostvars <==> n in ungrouped
    ensures forall n :: n in hostvars ==> hostvars[n].ip != []
  {
    hostvars := map[];
    ungrouped := [];
    var i := 0;
    while i < |found|
      invariant 0 <= i <= |found|
      invariant ungrouped == FirstSeen(Flatten(found[..i]))
      invariant hostvars == HostvarsOf(Flatten(found[..i]))
    {
      hostvars, ungrouped := RecordMapping(hostvars, ungrouped, Flatten(found[..i]), found[i]);
      FlattenSnoc(found, i);
      i := i + 1;
    }
    assert found[..|found|] == found;
    InventoryWellFormed(Flatten(found));
  }

  /**
   * The document `get_list` serialises: the scan results' hosts under
   * `_meta.hostvars` and `ungrouped.hosts`, and `ungrouped` as the only child
   * of `all`. No pair is lost: the listed hosts hold one address per pair.
   */
  method GetList(found: seq<seq<Pair>>) returns (doc: Document)
    ensures doc == InventoryOf(Flatten(found))
    ensures WellFormed(doc)
    ensures AddressTotal(doc.meta.hostvars, doc.ungrouped.hosts) == |Flatten(found)|
  {
    var hostvars, ungrouped := BuildHosts(found);
    doc := Assemble(hostvars, ungrouped);
    InventoryWellFormed(Flatten(found));
    AddressTotalIsPairCount(Flatten(found));
  }
}
