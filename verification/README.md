# Nmap dynamic inventory, modelled in Dafny

`dynamicinv.py` is an Ansible dynamic-inventory script. It runs a network
scan over a configured address range. It then turns the scan results, a
sequence of `{host name: address}` mappings, into the inventory document
Ansible reads:

```
{ "_meta":     { "hostvars": { <name>: { "ip": [<address>, ...] }, ... } },
  "all":       { "children": ["ungrouped"] },
  "ungrouped": { "hosts": [<name>, ...] } }
```

When it is asked about a single host (`--host NAME`), it prints the empty
object instead.

This project models the part of the script that is logic rather than I/O:

- `inventory.dfy` (module `Inventory`) has the document as datatypes.
  `Document` has the three parts `Meta`, `AllGroup` and `HostGroup`, and
  `HostVars` holds the `ip` list. The module also gives a declarative
  specification of what the document must hold, as functions of the scanned
  (name, address) pairs read front to back:
  - `FirstSeen` is the host list.
  - `AddressesOf` and `HostvarsOf` are the per-host address table.
  - `FirstIndex` is the position at which a name first occurs.
  - `InventoryOf` is the whole document.

  The lemmas in this module state what these functions mean.
- `builder.dfy` (module `Builder`) has the builder loop of `get_list` as
  imperative code. It appends to the host list after a membership check,
  creates an empty entry for a new host and appends each address to its
  host's entry. The loop is proved equal to the specification.
- `cli.dfy` (module `Cli`) is the decision the entry point takes once the
  arguments are parsed. A non-empty `--host` gets the empty object. In every
  other case, including `--host ""`, the inventory is printed. The branch
  that raises the argument error cannot be reached, because it needs the
  length of the `--list` value to be negative.

The scan results are a parameter, `found: seq<seq<Pair>>`. Each inner
sequence is one mapping produced by the scanner, with its pairs in
iteration order. A Python dict cannot hold the same key twice, but the model
does not rely on that: every result holds for any sequence of pairs.

## Model

| member | source | states |
|---|---|---|
| `Builder.RecordMapping` | dynamicinv.py:44-49 | The inner loop, recording the pairs of one mapping on top of tables that match the pairs already done, yields exactly the host list `FirstSeen` and the table `HostvarsOf` of the longer pair sequence |
| `Builder.BuildHosts` | dynamicinv.py:41-49 | The whole builder loop returns the host list and host table of the flattened scan results. The list has no duplicates, the table's keys are exactly the listed names, and no host's `ip` list is empty |
| `Builder.GetList` | dynamicinv.py:40-62 | The assembled document equals `InventoryOf` of the scan results and is well formed: `all.children` is exactly `["ungrouped"]`, the listed hosts are distinct and agree with the `hostvars` keys, every `ip` list is non-empty, and the listed hosts hold as many addresses as there were pairs |
| `Inventory.RecordPair` | dynamicinv.py:45-49 | One iteration of the loop body: the name is appended only if absent, the entry is created empty only if absent, and the address is appended. This turns the tables of a pair sequence into the tables of that sequence plus one pair |
| `Inventory.FirstIndex` | dynamicinv.py:43-46 | The position returned holds a pair with the given name, and no earlier pair has that name |
| `Inventory.FirstSeenNames` | dynamicinv.py:43-46 | A name is in the host list if and only if some scanned pair carries it |
| `Inventory.FirstSeenNoDuplicates` | dynamicinv.py:45-46 | The host list holds no name twice |
| `Inventory.FirstSeenOrder` | dynamicinv.py:43-46 | The host list is ordered by the position at which each name first appears in the scan results |
| `Inventory.FirstSeenCharacterized` | dynamicinv.py:43-46 | Any duplicate-free list of exactly the names found, ordered by first appearance, is the host list. So the three properties above determine it completely |
| `Inventory.OrderedByKeyUnique` | dynamicinv.py:43-46 | Two duplicate-free lists with the same elements, both strictly increasing under one key, are equal. This is the uniqueness argument behind `FirstSeenCharacterized` |
| `Inventory.FirstSeenLength` | dynamicinv.py:45-46 | The host list has exactly as many entries as there are distinct names found |
| `Inventory.AddressesOfEmpty` | dynamicinv.py:47-49 | A host's address list is empty if and only if its name never occurs, so every listed host has at least one address |
| `Inventory.AddressesOfCount` | dynamicinv.py:47-49 | A host's address list has one entry per scanned pair carrying its name, so there is no deduplication and nothing is overwritten |
| `Inventory.AddressesOfMultiplicity` | dynamicinv.py:47-49 | Each address occurs in a host's list exactly as many times as that (host, address) pair was found: addresses are neither merged, dropped nor invented |
| `Inventory.AddressesOfFound` | dynamicinv.py:47-49 | An address is in a host's list if and only if it was found for that host |
| `Inventory.AddressesOfAppend` | dynamicinv.py:43-49 | Addresses keep discovery order: the list built from the pairs of one sequence followed by another is the first sequence's list followed by the second's |
| `Inventory.AddressTotalIsPairCount` | dynamicinv.py:43-49 | Summed over the host list, the `ip` lists hold exactly as many addresses as there are scanned pairs: nothing is dropped |
| `Inventory.Assemble` | dynamicinv.py:50-62 | The document puts the built table under `_meta.hostvars` and the built list under `ungrouped.hosts`, and gives `all` the single child `ungrouped` |
| `Inventory.InventoryWellFormed` | dynamicinv.py:50-62 | The document of any scan results has `all.children == ["ungrouped"]`, distinct hosts, `hostvars` keys equal to the listed hosts, and non-empty `ip` lists |
| `Inventory.EmptyScanInventory` | dynamicinv.py:41-42 | Scan results without pairs give empty `hostvars` and an empty host list, while `all.children` is still `["ungrouped"]` |
| `Cli.GetEmptyVars` | dynamicinv.py:26-27 | The variables reported for a single host are the empty object |
| `Cli.Truthy` | dynamicinv.py:96 | `--host` counts as given if and only if it is present and not the empty string |
| `Cli.Len` | dynamicinv.py:98 | The length of the `--list` value: the number of words given after it, or 5 for its default value `"dummy"` |
| `Cli.Respond` | dynamicinv.py:96-101 | The host answer is chosen if and only if `--host` is a non-empty string, and it is the empty object. Otherwise the answer is the inventory of the scan results. The argument error is never the outcome |
| `Cli.HostReplyIgnoresHost` | dynamicinv.py:26-27 | The host answer is the empty object whichever host is asked for and whatever the scan found |
| `Cli.EmptyHostListsInventory` | dynamicinv.py:96-99 | An empty `--host` value gets the same answer as an absent one: the inventory |

## Left out

- The scanner `NmapRunner` (dynamicinv.py:12, 40) is an external program driven over the network. Its results are the parameter `found`, and the address range passed to it plays no part in the model.
- `load_config` (dynamicinv.py:14-23) reads `~/.config/nmap_inventory.cfg` through `ConfigParser`, which is file I/O and library parsing. The configuration errors it raises are not modelled.
- The `argparse` set-up and the process entry (dynamicinv.py:65-95, 103-104) are library behaviour. `Cli.Respond` takes the already-parsed values of `--host` and `--list`. The ways `--list` and `--host` exclude each other are not modelled.
- `json.dumps` (dynamicinv.py:27, 63) and the `--pretty` flag are left out. The document is modelled as a structure, not as text. Under CPython's `json`, `indent=False` behaves like indent 0, so the output without `--pretty` still has line breaks and is not the one-line form. That lies in serialisation, outside the model.
- The `print` calls (dynamicinv.py:97, 99) are output. `Cli.Respond` returns what would be printed.
- Builder.BuildHosts: the key order of `_meta.hostvars` is not modelled. The source's table is a Python dict, which keeps insertion order, and `json.dumps` writes the keys in that order; a Dafny `map` has no order, so the model states which hosts and addresses the table holds but not the order in which its keys are written.
- `Builder.RecordMapping` and `Builder.BuildHosts` keep the host table as a Dafny `map` value. The source mutates nested Python lists in place, but no list is shared between hosts, so keeping the table as a value gives up only the in-place update, not any sharing. The inner loop over one mapping is a method of its own rather than a nested loop in the same body.
