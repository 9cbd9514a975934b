/** How mount_all in src/mount.c sorts the fstab entries into chains, one for each disk or NFS host. */
module MountGroups {
  import opened Common

  /** An fstab entry with what the system says about it: does its type match the request, is it mounted already, and
      which disk group its device belongs to, if it is a block device. */
  datatype Item = Item(fsname: string, dir: string, kind: string, matches: bool, mounted: bool, disk: Option<string>)

  predicate Eligible(e: Item) { e.matches && e.dir != "/" && e.dir != "root" && !e.mounted }

  /** The host part of an NFS device. */
  function BeforeColon(s: string): (h: string)
    ensures h <= s && ':' !in h && (|h| < |s| ==> s[|h|] == ':')
  {
    if s == [] || s[0] == ':' then [] else [s[0]] + BeforeColon(s[1..])
  }

  function Group(e: Item, optFork: bool): Option<string>
  {
    if !optFork then None else if e.kind == "nfs" then Some(BeforeColon(e.fsname)) else e.disk
  }

  /** struct child: the group, and the chained entries as positions in fstab. */
  datatype Chain = Chain(group: Option<string>, members: seq<nat>)

  predicate Increasing(s: seq<nat>) { forall i, j | 0 <= i < j < |s| :: s[i] < s[j] }

  /** Chain c holds entry i. */
  predicate Holds(chains: seq<Chain>, c: int, i: nat) { 0 <= c < |chains| && i in chains[c].members }

  /** The chains for the first n entries of fstab. */
  ghost predicate Sorted(fstab: seq<Item>, optFork: bool, n: nat, chains: seq<Chain>)
    requires n <= |fstab|
  {
    // chains keep fstab order, hold only eligible entries, and these belong to the chain's group
    && (forall c | 0 <= c < |chains| :: chains[c].members != [] && Increasing(chains[c].members))
    && (forall c, i: nat | Holds(chains, c, i) ::
        i < n && Eligible(fstab[i]) && Group(fstab[i], optFork) == chains[c].group)
    // every eligible entry is in some chain
    && (forall i | 0 <= i < n && Eligible(fstab[i]) :: exists c :: Holds(chains, c, i))
    // no two chains are for the same group, and a chain without a group holds one entry
    && (forall c, d | 0 <= c < d < |chains| && chains[c].group.Some? :: chains[c].group != chains[d].group)
    && (forall c | 0 <= c < |chains| && chains[c].group.None? :: |chains[c].members| == 1)
    // no entry is in two chains
    && (forall c, d, i: nat | Holds(chains, c, i) && Holds(chains, d, i) :: c == d)
  }

  lemma Extend(fstab: seq<Item>, optFork: bool, n: nat, chains: seq<Chain>, c: nat)
    requires n < |fstab| && Sorted(fstab, optFork, n, chains) && Eligible(fstab[n])
    requires c < |chains| && chains[c].group.Some? && chains[c].group == Group(fstab[n], optFork)
    ensures Sorted(fstab, optFork, n + 1, chains[c := chains[c].(members := chains[c].members + [n])])
  {
    var chains' := chains[c := chains[c].(members := chains[c].members + [n])];
    forall k | 0 <= k < |chains[c].members| ensures chains[c].members[k] < n {
      assert Holds(chains, c, chains[c].members[k]);
    }
    forall d, i: nat ensures Holds(chains', d, i) <==> Holds(chains, d, i) || (d == c && i == n) { }
    forall i | 0 <= i < n + 1 && Eligible(fstab[i]) ensures exists d :: Holds(chains', d, i) {
      if i < n {
        var d :| Holds(chains, d, i);
        assert Holds(chains', d, i);
      } else {
        assert Holds(chains', c, i);
      }
    }
  }

  lemma AddChain(fstab: seq<Item>, optFork: bool, n: nat, chains: seq<Chain>)
    requires n < |fstab| && Sorted(fstab, optFork, n, chains) && Eligible(fstab[n])
    requires var g := Group(fstab[n], optFork); g.Some? ==> forall c | 0 <= c < |chains| :: chains[c].group != g
    ensures Sorted(fstab, optFork, n + 1, chains + [Chain(Group(fstab[n], optFork), [n])])
  {
    var chains' := chains + [Chain(Group(fstab[n], optFork), [n])];
    forall d, i: nat ensures Holds(chains', d, i) <==> Holds(chains, d, i) || (d == |chains| && i == n) { }
    forall i | 0 <= i < n + 1 && Eligible(fstab[i]) ensures exists d :: Holds(chains', d, i) {
      if i < n {
        var d :| Holds(chains, d, i);
        assert Holds(chains', d, i);
      } else {
        assert Holds(chains', |chains|, i);
      }
    }
  }

  /** The first chain of a group. */
  function Seek(chains: seq<Chain>, g: string): (c: nat)
    ensures c <= |chains| && (c < |chains| ==> chains[c].group == Some(g))
    ensures forall d | 0 <= d < c :: chains[d].group != Some(g)
  {
    if chains == [] || chains[0].group == Some(g) then 0 else 1 + Seek(chains[1..], g)
  }

  /** The chains with one entry more. */
  function Placed(chains: seq<Chain>, g: Option<string>, at: nat): seq<Chain>
  {
    var c := if g.Some? then Seek(chains, g.value) else |chains|;
    if c < |chains| then chains[c := chains[c].(members := chains[c].members + [at])]
    else chains + [Chain(g, [at])]
  }

  lemma PlacedSorted(fstab: seq<Item>, optFork: bool, n: nat, chains: seq<Chain>)
    requires n < |fstab| && Sorted(fstab, optFork, n, chains) && Eligible(fstab[n])
    ensures Sorted(fstab, optFork, n + 1, Placed(chains, Group(fstab[n], optFork), n))
  {
    var g := Group(fstab[n], optFork);
    var c := if g.Some? then Seek(chains, g.value) else |chains|;
    if c < |chains| { Extend(fstab, optFork, n, chains, c); } else { AddChain(fstab, optFork, n, chains); }
  }

  // ----- the linked chains -----

  /** A copy of an fstab entry, known by its position. */
  class Link {
    const at: nat
    var nxt: Link?
    ghost var owner: object?

    constructor (at: nat)
      ensures this.at == at && nxt == null
    {
      this.at, nxt := at, null;
    }
  }

  /** struct child. */
  class Child {
    const group: Option<string>
    var mec: Link
    var meclast: Link
    var nxt: Child?
    ghost var links: seq<Link>
    ghost var members: seq<nat>

    /** The chain runs from mec to meclast through the child's own links. */
    ghost predicate Valid()
      reads this`mec, this`meclast, this`links, this`members, links
    {
      && 0 < |links| == |members| && mec == links[0] && meclast == links[|links| - 1]
      && (forall i {:trigger links[i].nxt} | 0 <= i < |links| ::
            links[i].nxt == if i + 1 < |links| then links[i + 1] else null)
      && (forall i | 0 <= i < |links| :: links[i].at == members[i] && links[i].owner == this)
      && (forall i, j | 0 <= i < j < |links| :: links[i] != links[j])
    }

    constructor (group: Option<string>, at: nat)
      ensures Valid() && this.group == group && members == [at] && nxt == null && fresh(meclast)
    {
      var link := new Link(at);
      this.group, mec, meclast, nxt, links, members := group, link, link, null, [link], [at];
      new;
      link.owner := this;
    }

    /** Link an entry to the end of the chain. */
    method Add(at: nat)
      requires Valid()
      modifies this`meclast, this`links, this`members, meclast
      ensures Valid() && members == old(members) + [at] && fresh(meclast)
    {
      var link := new Link(at);
      link.owner := this;
      meclast.nxt := link;
      meclast := link;
      links, members := links + [link], members + [at];
    }
  }

  /** The children from childhead to childtail. */
  class ChildList {
    var head: Child?
    var tail: Child?
    ghost var kids: seq<Child>
    ghost var chains: seq<Chain>

    ghost function KidAt(i: int): Child?
      reads this
    {
      if 0 <= i < |kids| then kids[i] else null
    }

    ghost function Links(): (all: set<Link>)
      reads this, kids
      ensures forall k <- kids, l <- k.links :: l in all
    {
      set k, l | k in kids && l in k.links :: l
    }

    ghost predicate Valid()
      reads this, kids, Links()
    {
      && |kids| == |chains| && head == KidAt(0) && tail == KidAt(|kids| - 1)
      && (forall i {:trigger kids[i].nxt} | 0 <= i < |kids| :: kids[i].nxt == KidAt(i + 1))
      && (forall k <- kids :: k.Valid())
      && (forall i | 0 <= i < |kids| :: chains[i] == Chain(kids[i].group, kids[i].members))
      && (forall i, j | 0 <= i < j < |kids| :: kids[i] != kids[j])
    }

    constructor ()
      ensures Valid() && chains == [] && kids == []
    {
      head, tail, kids, chains := null, null, [], [];
    }

    /** The loop that looks for a child of the group. */
    method FindChild(g: string) returns (cp: Child?, ghost c: nat)
      requires Valid()
      ensures c == Seek(chains, g) && cp == KidAt(c)
    {
      cp, c := head, 0;
      while cp != null && cp.group != Some(g)
        invariant c <= |chains| && cp == KidAt(c)
        invariant forall d | 0 <= d < c :: chains[d].group != Some(g)
        decreases |chains| - c
      {
        cp := cp.nxt;
        c := c + 1;
      }
    }

    /** Add an entry to child c. */
    method AddTo(cp: Child, at: nat, ghost c: nat)
      requires Valid() && c < |kids| && cp == kids[c]
      modifies this`chains, cp, cp.meclast
      ensures Valid() && chains == old(chains)[c := old(chains)[c].(members := old(chains)[c].members + [at])]
      ensures fresh(cp.meclast)
    {
      cp.Add(at);
      chains := chains[c := chains[c].(members := chains[c].members + [at])];
    }

    /** A new child at the end. */
    method AddChild(group: Option<string>, at: nat)
      requires Valid()
      modifies this, kids`nxt
      ensures Valid() && chains == old(chains) + [Chain(group, [at])]
      ensures |kids| == |old(kids)| + 1 && kids[..|old(kids)|] == old(kids)
      ensures fresh(kids[|old(kids)|]) && fresh(kids[|old(kids)|].meclast)
    {
      var cp := new Child(group, at);
      LinkChild(cp);
    }

    method LinkChild(cp: Child)
      requires Valid() && cp !in kids && cp.Valid() && cp.nxt == null
      modifies this, kids`nxt
      ensures Valid() && chains == old(chains) + [Chain(cp.group, cp.members)] && kids == old(kids) + [cp]
    {
      if tail == null { head := cp; } else { tail.nxt := cp; }
      tail := cp;
      kids, chains := kids + [cp], chains + [Chain(cp.group, cp.members)];
    }

    ghost function Ends(): set<Link>
      reads this, kids
    {
      set i | 0 <= i < |kids| :: kids[i].meclast
    }

    /** One entry: to the child of its group, or to a new one. */
    method Place(g: Option<string>, at: nat)
      requires Valid()
      modifies this, kids, Ends()
      ensures Valid() && chains == Placed(old(chains), g, at)
      ensures |old(kids)| <= |kids| && kids[..|old(kids)|] == old(kids)
      ensures forall i | 0 <= i < |kids| ::
                fresh(kids[i].meclast) || (i < |old(kids)| && kids[i].meclast == old(kids[i].meclast))
      ensures forall i | |old(kids)| <= i < |kids| :: fresh(kids[i])
    {
      if g.Some? {
        var cp, c := FindChild(g.value);
        if cp != null {
          AddTo(cp, at, c);
          return;
        }
      }
      AddChild(g, at);
    }
  }

  /** The chain-building loop of mount_all. */
  method BuildChains(fstab: seq<Item>, optFork: bool) returns (list: ChildList)
    ensures fresh(list) && list.Valid() && Sorted(fstab, optFork, |fstab|, list.chains)
  {
    list := new ChildList();
    for n := 0 to |fstab|
      invariant fresh(list) && list.Valid() && Sorted(fstab, optFork, n, list.chains)
      invariant forall i | 0 <= i < |list.kids| :: fresh(list.kids[i]) && fresh(list.kids[i].meclast)
    {
      if Eligible(fstab[n]) {
        PlacedSorted(fstab, optFork, n, list.chains);
        list.Place(Group(fstab[n], optFork), n);
      }
    }
  }

  /** Two eligible entries share a chain exactly when they have the same group and it is not null. */
  lemma SharedChain(fstab: seq<Item>, optFork: bool, chains: seq<Chain>, i: nat, j: nat)
    requires Sorted(fstab, optFork, |fstab|, chains)
    requires i < |fstab| && j < |fstab| && i != j && Eligible(fstab[i]) && Eligible(fstab[j])
    ensures (exists c :: Holds(chains, c, i) && Holds(chains, c, j))
       <==> Group(fstab[i], optFork).Some? && Group(fstab[i], optFork) == Group(fstab[j], optFork)
  {
    var c :| Holds(chains, c, i);
    var d :| Holds(chains, d, j);
    if Group(fstab[i], optFork).Some? && Group(fstab[i], optFork) == Group(fstab[j], optFork) {
      assert c == d;
    }
  }

  lemma {:induction false} HostOf(host: string, path: string)
    requires ':' !in host
    ensures BeforeColon(host) == host && BeforeColon(host + ":" + path) == host
  {
    if host != [] {
      HostOf(host[1..], path);
      assert (host + ":" + path)[1..] == host[1..] + ":" + path;
    }
  }

  /** The group is the host of an NFS entry, with or without a path, and otherwise the disk; without --fork there are no
      groups. */
  lemma GroupExactly(e: Item, host: string, path: string)
    requires ':' !in host
    ensures Group(e, false) == None
    ensures e.kind != "nfs" ==> Group(e, true) == e.disk
    ensures e.kind == "nfs" && e.fsname in {host, host + ":" + path} ==> Group(e, true) == Some(host)
  {
    HostOf(host, path);
  }

  /** An entry is chained exactly when its type matches, it is not mounted and it is not for the root directory, and
      then in one chain only. */
  lemma ChainedExactly(fstab: seq<Item>, optFork: bool, chains: seq<Chain>, i: nat)
    requires Sorted(fstab, optFork, |fstab|, chains) && i < |fstab|
    ensures var e := fstab[i];
            (exists c :: Holds(chains, c, i)) <==> e.matches && !e.mounted && e.dir != "/" && e.dir != "root"
    ensures forall c, d | Holds(chains, c, i) && Holds(chains, d, i) :: c == d
  {
  }

  /** With --fork two NFS entries share a chain exactly when they have the same host; without it no entries do. */
  lemma HostsTogether(fstab: seq<Item>, optFork: bool, chains: seq<Chain>, i: nat, j: nat, hosts: seq<string>,
                      paths: seq<string>)
    requires Sorted(fstab, optFork, |fstab|, chains)
    requires i < |fstab| && j < |fstab| && i != j && |hosts| == |paths| == 2
    requires fstab[i].kind == fstab[j].kind == "nfs" && ':' !in hosts[0] && ':' !in hosts[1]
    requires fstab[i].fsname == hosts[0] + ":" + paths[0] && fstab[j].fsname == hosts[1] + ":" + paths[1]
    requires (exists c :: Holds(chains, c, i)) && (exists c :: Holds(chains, c, j))
    ensures (exists c :: Holds(chains, c, i) && Holds(chains, c, j)) <==> optFork && hosts[0] == hosts[1]
  {
    HostOf(hosts[0], paths[0]);
    HostOf(hosts[1], paths[1]);
    SharedChain(fstab, optFork, chains, i, j);
  }
}
