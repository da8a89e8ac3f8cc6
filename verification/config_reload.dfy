/** The decision `watchConfigFile` (main.go and server/server.go) takes
    each time it has read the configuration file again: close the
    listener, exit, keep the routes, or replace them with the file's list.
    Reading the file and the timer are not modelled; the configuration
    last applied and the one just read are inputs. */
module ConfigReload {
  import opened Base
  import opened ProxyTypes

  /** What the watcher does with the process. */
  datatype Decision = CloseListener | ForceExit | Keep | Replace

  /** The decision, the route table afterwards, and the configuration the
      next comparison starts from. */
  datatype Reload = Reload(decision: Decision, servers: ServerTable, current: ProxyConfig)

  /** The route table that storing every listed backend under its name, in
      list order, produces from an empty one: a later entry with the same
      name overwrites an earlier one. */
  function ByName(list: seq<ServerInfo>): (t: ServerTable)
    ensures forall i :: 0 <= i < |list| ==> list[i].name in t
  {
    if list == [] then map[]
    else ByName(list[..|list| - 1])[list[|list| - 1].name := list[|list| - 1]]
  }

  /** Some entry of `list` carries the name `n`. */
  predicate Names(list: seq<ServerInfo>, n: string) {
    exists i :: 0 <= i < |list| && list[i].name == n
  }

  /** `list[i]` is the last entry carrying the name `n`. */
  predicate LastWith(list: seq<ServerInfo>, n: string, i: nat) {
    i < |list| && list[i].name == n && forall j :: i < j < |list| ==> list[j].name != n
  }

  /** The table holds exactly the listed names. */
  lemma {:induction false} ByNameKeys(list: seq<ServerInfo>, n: string)
    ensures n in ByName(list) <==> Names(list, n)
  {
    if list != [] {
      var init := list[..|list| - 1];
      ByNameKeys(init, n);
      if Names(init, n) {
        var i :| 0 <= i < |init| && init[i].name == n;
        assert list[i] == init[i];
      }
      if Names(list, n) && list[|list| - 1].name != n {
        var i :| 0 <= i < |list| && list[i].name == n;
        assert init[i] == list[i];
      }
    }
  }

  /** Each listed name is mapped to the last entry carrying it. */
  lemma {:induction false} ByNameLast(list: seq<ServerInfo>, n: string)
    requires n in ByName(list)
    ensures exists i: nat :: LastWith(list, n, i) && list[i] == ByName(list)[n]
  {
    var init, last := list[..|list| - 1], list[|list| - 1];
    if last.name == n {
      assert LastWith(list, n, |list| - 1);
    } else {
      ByNameLast(init, n);
      var i: nat :| LastWith(init, n, i) && init[i] == ByName(init)[n];
      assert LastWith(list, n, i);
    }
  }

  /** The element-wise comparison of the two server lists: `update` is set
      at the first position where they differ. Lists of different lengths
      always differ. */
  method ServersDiffer(previous: seq<ServerInfo>, next: seq<ServerInfo>) returns (update: bool)
    ensures update <==> previous != next
  {
    if |next| != |previous| {
      return true;
    }
    update := false;
    var i := 0;
    while i < |next|
      invariant 0 <= i <= |next|
      invariant next[..i] == previous[..i]
    {
      if next[i] != previous[i] {
        update := true;
        return;
      }
      i := i + 1;
    }
    assert next == next[..i] && previous == previous[..i];
  }

  /** One reload. The shutdown flag is looked at first, then the forced
      shutdown; otherwise an unchanged server list keeps the routes, and a
      changed one clears the table and refills it from the list. */
  method Apply(current: ProxyConfig, next: ProxyConfig, servers: ServerTable) returns (r: Reload)
    ensures next.shutdown ==> r == Reload(CloseListener, servers, current)
    ensures !next.shutdown && next.forceShutdown ==> r.decision == ForceExit && r.servers == servers
    ensures !next.shutdown && !next.forceShutdown && next.servers == current.servers ==>
      r == Reload(Keep, servers, next)
    ensures !next.shutdown && !next.forceShutdown && next.servers != current.servers ==>
      r == Reload(Replace, ByName(next.servers), next)
  {
    if next.shutdown {
      return Reload(CloseListener, servers, current);
    }
    if next.forceShutdown {
      return Reload(ForceExit, servers, current);
    }
    var update := ServersDiffer(current.servers, next.servers);
    if !update {
      return Reload(Keep, servers, next);
    }
    return Reload(Replace, ByName(next.servers), next);
  }

  /** After a replacement the table no longer depends on the old one: a
      backend is routed exactly when the new list names it. */
  lemma ReplaceForgetsOld(next: seq<ServerInfo>, n: string)
    ensures n in ByName(next) <==> Names(next, n)
    ensures n in ByName(next) ==> exists i: nat :: LastWith(next, n, i) && next[i] == ByName(next)[n]
  {
    ByNameKeys(next, n);
    if n in ByName(next) {
      ByNameLast(next, n);
    }
  }

  /** Applying the same configuration twice in a row keeps the routes the
      first application produced. */
  method ApplyTwice(current: ProxyConfig, next: ProxyConfig, servers: ServerTable) returns (first: Reload, second: Reload)
    requires !next.shutdown && !next.forceShutdown
    ensures second.decision == Keep && second.servers == first.servers && second.current == next
  {
    first := Apply(current, next, servers);
    second := Apply(first.current, next, first.servers);
  }
}
