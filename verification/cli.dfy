/**
 * The command-line entry point after argument parsing: which of the two
 * answers an inventory script owes Ansible is printed.
 */
module Cli {
  import opened Inventory

  datatype Option<T> = None | Some(value: T)

  /**
   * The parsed value of `--list`: the default string when the option is
   * absent, or the (possibly empty) list of words given after it.
   */
  datatype ListArg = Default(text: string) | Given(words: seq<string>)

  /** The value `--list` takes when it is not given. */
  const DefaultList: ListArg := Default("dummy")

  /** What the script prints, or the error it raises. */
  datatype Response =
    | HostReply(vars: map<string, seq<string>>)
    | ListReply(doc: Document)
    | ArgumentError(message: string)

  /** The length of the `--list` value, whichever form it has. */
  function Len(list: ListArg): (n: nat)
    ensures list.Given? ==> n == |list.words|
    ensures list == DefaultList ==> n == 5
  {
    match list
    case Default(text) => |text|
    case Given(words) => |words|
  }

  /** A `--host` value selects the host answer only when it is a non-empty string. */
  function Truthy(host: Option<string>): (b: bool)
    ensures b <==> host != None && host != Some("")
  {
    host.Some? && host.value != ""
  }

  /** The variables of a single host: always the empty object. */
  function GetEmptyVars(): (vars: map<string, seq<string>>)
    ensures |vars| == 0
  {
    map[]
  }

  /**
   * A non-empty `--host` is answered with the empty object, whatever the
   * scan found; in every other case the inventory of the scan results is
   * the answer. The argument error is never raised, since no length is
   * negative.
   */
  function Respond(host: Option<string>, list: ListArg, found: seq<seq<Pair>>): (r: Response)
    ensures r.HostReply? <==> Truthy(host)
    ensures r.HostReply? ==> r.vars == map[]
    ensures r.ListReply? ==> r.doc == InventoryOf(Flatten(found))
    ensures !r.ArgumentError?
  {
    if Truthy(host) then HostReply(GetEmptyVars())
    else if Len(list) >= 0 then ListReply(InventoryOf(Flatten(found)))
    else ArgumentError("Expecting either --host $HOSTNAME or --list")
  }

  /** The host answer does not depend on which host is asked for, nor on the scan. */
  lemma HostReplyIgnoresHost(h1: string, h2: string, list1: ListArg, list2: ListArg,
                             found1: seq<seq<Pair>>, found2: seq<seq<Pair>>)
    requires h1 != "" && h2 != ""
    ensures Respond(Some(h1), list1, found1) == Respond(Some(h2), list2, found2) == HostReply(map[])
  {
  }

  /** An empty `--host` falls through to the inventory, like an absent one. */
  lemma EmptyHostListsInventory(list: ListArg, found: seq<seq<Pair>>)
    ensures Respond(Some(""), list, found) == Respond(None, list, found)
    ensures Respond(None, list, found) == ListReply(InventoryOf(Flatten(found)))
  {
  }
}
