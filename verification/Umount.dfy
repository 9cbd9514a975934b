/** The cached mount list of src/fstab.c and the reverse unmount walk of src/umount.c. */
module Umount {
  import opened Common
  import opened Mntent
  import opened MntFile
  import opened Mtab
  import opened Strings

  /** What the cache keeps of an entry. */
  datatype Mount = Mount(fsname: string, dir: string, kind: string, opts: string)

  function AsMount(e: Entry): Mount { Mount(e.fsname, e.dir, e.kind, e.opts) }

  /** The cache stops at the first entry of type "ignore". */
  function Cached(es: seq<Entry>): seq<Mount>
  {
    if es == [] || es[0].kind == "ignore" then [] else [AsMount(es[0])] + Cached(es[1..])
  }

  // ----- the doubly linked list -----

  class Node {
    var value: Mount
    var nxt: Node?
    var prev: Node?

    constructor (value: Mount, prev: Node?)
      ensures this.value == value && this.nxt == null && this.prev == prev
    {
      this.value, this.nxt, this.prev := value, null, prev;
    }
  }

  class MountList {
    const head: Node              // a dummy
    ghost var nodes: seq<Node>    // the dummy first
    ghost var contents: seq<Mount>

    /** A chain from the dummy, linked both ways. */
    ghost predicate Linked()
      reads this, nodes
    {
      && |nodes| == |contents| + 1 && nodes[0] == head
      && (forall i, j | 0 <= i < j < |nodes| :: nodes[i] != nodes[j])
      && (forall i {:trigger nodes[i].nxt} | 0 <= i < |nodes| ::
          nodes[i].nxt == if i + 1 < |nodes| then nodes[i + 1] else null)
      && (forall i {:trigger nodes[i].prev} | 0 < i < |nodes| :: nodes[i].prev == nodes[i - 1])
      && (forall i {:trigger nodes[i].value} | 0 < i < |nodes| :: nodes[i].value == contents[i - 1])
    }

    /** ... and the dummy's back link leads to the end. */
    ghost predicate Valid()
      reads this, nodes
    {
      Linked() && head.prev == nodes[|nodes| - 1]
    }

    constructor ()
      ensures Linked() && contents == [] && fresh(head) && fresh(nodes) && head.prev == null
    {
      head := new Node(Mount("", "", "", ""), null);
      new;
      nodes, contents := [head], [];
    }

    lemma NodeAt(i: nat)
      requires Linked() && 0 < i < |nodes|
      ensures nodes[i].value == contents[i - 1] && nodes[i].prev == nodes[i - 1] && contents[i - 1] in contents
    {
    }

    method Append(last: Node, value: Mount) returns (node: Node)
      requires Linked() && last == nodes[|nodes| - 1]
      modifies this, last
      ensures Linked() && contents == old(contents) + [value]
      ensures fresh(node) && nodes == old(nodes) + [node]
    {
      node := new Node(value, last);
      last.nxt := node;
      nodes, contents := nodes + [node], contents + [value];
    }

    /** Let the dummy's back link lead to the end. */
    method Close(last: Node)
      requires Linked() && last == nodes[|nodes| - 1]
      modifies head`prev
      ensures Valid()
    {
      head.prev := last;
    }

    /** Link the entry just read and read the next. */
    method Extend(mfp: File, last: Node, value: Mount) returns (node: Node, mnt: Option<Entry>)
      requires Linked() && last == nodes[|nodes| - 1] && mfp.Valid()
      modifies this, last, mfp
      ensures Linked() && contents == old(contents) + [value] && mfp.Valid()
      ensures fresh(node) && node == nodes[|nodes| - 1]
      ensures ReadAll(old(mfp.State())) == if mnt.None? then [] else [mnt.value] + ReadAll(mfp.State())
    {
      node := Append(last, value);
      mnt := Fetch(mfp);
    }

    /** After a read error: no entries, and no way back either. */
    method Clear()
      requires Linked()
      modifies this, head
      ensures Linked() && contents == [] && head.prev == null
    {
      head.nxt, head.prev := null, null;
      nodes, contents := [head], [];
    }

    /** read_mntentchn; readError is what ferror says at the end. */
    method ReadMntEntChn(mfp: File, readError: bool)
      requires Linked() && contents == [] && mfp.Valid()
      modifies this, nodes, mfp
      ensures if readError then Linked() && contents == [] && head.prev == null
              else Valid() && contents == Cached(ReadAll(old(mfp.State())))
    {
      var mc := head;
      ghost var todo := ReadAll(mfp.State());
      var mnt := Fetch(mfp);
      while mnt.Some? && mnt.value.kind != "ignore"
        invariant mfp.Valid() && Linked() && mc == nodes[|nodes| - 1]
        invariant mc == head || fresh(mc)
        invariant todo == if mnt.None? then [] else [mnt.value] + ReadAll(mfp.State())
        invariant contents + Cached(todo) == Cached(ReadAll(old(mfp.State())))
        decreases |todo|
      {
        CachedStep(contents, todo);
        todo := todo[1..];
        mc, mnt := Extend(mfp, mc, AsMount(mnt.value));
      }
      Close(mc);
      if readError { Clear(); }
    }
  }

  lemma CachedStep(done: seq<Mount>, es: seq<Entry>)
    requires es != [] && es[0].kind != "ignore"
    ensures (done + [AsMount(es[0])]) + Cached(es[1..]) == done + Cached(es)
  {
    var rest := Cached(es[1..]);
    assert Cached(es) == [AsMount(es[0])] + rest;
    assert (done + [AsMount(es[0])]) + rest == done + ([AsMount(es[0])] + rest);
  }

  // ----- matching_type -----

  /** matching_type of src/sundries.c; no types stands for NULL. Swap never matches; a list that ends in a "no" type
      selects what it does not mention. */
  predicate MatchingType(kind: string, types: seq<string>)
  {
    && kind != "swap"
    && (types == [] || ("no" + kind !in types && (StartsWith(types[|types| - 1], "no") != (kind in types))))
  }

  /** The loop of matching_type. */
  method MatchType(kind: string, types: seq<string>) returns (matches: bool)
    ensures matches == MatchingType(kind, types)
  {
    if kind == "swap" { return false; }
    if types == [] { return true; }
    var foundYes, foundNo, no := false, false, false;
    for i := 0 to |types|
      invariant foundYes == (kind in types[..i]) && foundNo == ("no" + kind in types[..i])
      invariant i == |types| ==> no == StartsWith(types[|types| - 1], "no")
    {
      if i == |types| - 1 { no := StartsWith(types[i], "no"); }
      if types[i] == kind { foundYes := true; } else if types[i] == "no" + kind { foundNo := true; }
      assert types[..i + 1] == types[..i] + [types[i]];
    }
    assert types[..|types|] == types;
    matches := if foundNo then false else no != foundYes;
  }

  // ----- one unmount -----

  /** What the kernel answers: None for success, otherwise errno. `first` is for the directory, `second` for the device;
      the last two say whether del_loop fails for an old-style and a new-style loop entry. */
  datatype Attempt = Attempt(first: Option<int>, second: Option<int>, oldLoopFails: bool, newLoopFails: bool)

  predicate IsRoot(m: Mount) { m.dir == "/" || m.dir == "root" || m.dir == "rootfs" }

  /** The unmount worked, by directory or, unless it was busy, by device. */
  predicate Succeeded(m: Mount, a: Attempt)
  {
    a.first.None? || (a.first != Some(EBUSY) && m.dir != m.fsname && a.second.None?)
  }

  /** The directory was not mounted, or is not there any more. */
  predicate Obsolete(a: Attempt) { a.first == Some(EINVAL) || a.first == Some(ENOENT) }

  /** getmntfile: the first cached entry whose directory or device is the name. */
  function Find(cache: seq<Mount>, name: string): Option<Mount>
  {
    if cache == [] then None
    else if cache[0].dir == name || cache[0].fsname == name then Some(cache[0])
    else Find(cache[1..], name)
  }

  predicate HasLoopOption(tokens: seq<string>)
  {
    exists i | 0 <= i < |tokens| :: StartsWith(tokens[i], "loop=")
  }

  /** Freeing the loop device behind the entry that the cache finds for the device, or else for the directory, fails. */
  predicate LoopStuck(cache: seq<Mount>, m: Mount, a: Attempt)
  {
    var mc := if Find(cache, m.fsname).Some? then Find(cache, m.fsname) else Find(cache, m.dir);
    && mc.Some?
    && ((mc.value.kind == "loop" && a.oldLoopFails) || (HasLoopOption(Tokens(mc.value.opts)) && a.newLoopFails))
  }

  /** The table loses the directory, provided that updates are not switched off. */
  predicate Drops(cache: seq<Mount>, writable: bool, m: Mount, a: Attempt)
  {
    if Succeeded(m, a) && (!writable || !LoopStuck(cache, m, a)) then writable else Obsolete(a)
  }

  predicate Fails(cache: seq<Mount>, writable: bool, noMtab: bool, m: Mount, a: Attempt)
  {
    !Succeeded(m, a) || (!noMtab && writable && LoopStuck(cache, m, a))
  }

  /** Does any option start with "loop="? */
  method ScanLoopOptions(opts: string) returns (found: bool)
    ensures found == HasLoopOption(Tokens(opts))
  {
    var tokens := Tokens(opts);
    found := false;
    for i := 0 to |tokens|
      invariant !found && !HasLoopOption(tokens[..i])
    {
      if StartsWith(tokens[i], "loop=") { return true; }
      assert tokens[..i + 1] == tokens[..i] + [tokens[i]];
    }
    assert tokens[..|tokens|] == tokens;
  }

  /** getmntfile's loop over the cached list. */
  method FindCached(list: MountList, name: string) returns (r: Option<Mount>)
    requires list.Linked()
    ensures r == Find(list.contents, name)
  {
    var mc := list.head.nxt;
    ghost var i := 0;
    assert list.contents[0..] == list.contents;
    while mc != null
      invariant 0 <= i <= |list.contents| && mc == if i + 1 < |list.nodes| then list.nodes[i + 1] else null
      invariant Find(list.contents[i..], name) == Find(list.contents, name)
      decreases |list.contents| - i
    {
      assert list.nodes[i + 1].value == list.contents[i];
      if mc.value.dir == name || mc.value.fsname == name { return Some(mc.value); }
      assert list.contents[i..][1..] == list.contents[i + 1..];
      assert list.nodes[i + 1].nxt == if i + 2 < |list.nodes| then list.nodes[i + 2] else null;
      mc := mc.nxt;
      i := i + 1;
    }
    r := None;
  }

  /** The part of umount_one about loop devices. */
  method FreeLoop(list: MountList, m: Mount, a: Attempt) returns (stuck: bool)
    requires list.Linked()
    ensures stuck == LoopStuck(list.contents, m, a)
  {
    var mc := FindCached(list, m.fsname);
    if mc.None? { mc := FindCached(list, m.dir); }
    if mc.None? { return false; }
    if mc.value.kind == "loop" && a.oldLoopFails { return true; }
    var found := ScanLoopOptions(mc.value.opts);
    stuck := found && a.newLoopFails;
  }

  class Unmounter {
    const list: MountList
    const table: Table
    const writable: bool
    var noMtab: nat                // umount_nomtab
    ghost var visited: seq<Mount>

    constructor (list: MountList, table: Table, writable: bool)
      ensures this.list == list && this.table == table && this.writable == writable && noMtab == 0 && visited == []
    {
      this.list, this.table, this.writable := list, table, writable;
      noMtab, visited := 0, [];
    }

    /** umount_one for a cached entry, with the read-only remount of busy file systems off. */
    method UmountOne(m: Mount, a: Attempt) returns (ret: int)
      requires list.Linked() && m in list.contents
      modifies this, table
      ensures noMtab == old(noMtab) + (if IsRoot(m) then 1 else 0)
      ensures visited == old(visited) + [m]
      ensures ret == if Fails(list.contents, writable, noMtab > 0, m, a) then 1 else 0
      ensures table.text == if noMtab == 0 && Drops(list.contents, writable, m, a) && table.exists_ && !table.symlink
                            then UpdateText(old(table.text), m.dir, None) else old(table.text)
    {
      visited := visited + [m];
      if IsRoot(m) { noMtab := noMtab + 1; }
      var res := a.first.None?;
      if a.first.Some? && a.first.value != EBUSY && m.dir != m.fsname {
        res := a.second.None?;
      }
      if res {
        if noMtab > 0 || !writable { return 0; }
        var stuck := FreeLoop(list, m, a);
        if !stuck {
          var _ := table.UpdateMtab(m.dir, None, NO_FAULTS);
          return 0;
        }
      }
      if noMtab == 0 && a.first.Some? && (a.first.value == EINVAL || a.first.value == ENOENT) {
        var _ := table.UpdateMtab(m.dir, None, NO_FAULTS);
      }
      ret := 1;
    }

    /** The walk has made the first k visits of `order` with the answers `env` and accumulated `errors`. */
    ghost predicate Progress(order: seq<Mount>, env: seq<Attempt>, k: nat, text: string, errors: int)
      requires k <= |order| == |env|
      reads this, table, list
    {
      && (noMtab > 0 <==> !NoRoot(order[..k]))
      && table.text == (if table.Kept() then WalkText(list.contents, writable, order[..k], env[..k], text) else text)
      && errors == if AnyFails(list.contents, writable, order[..k], env[..k]) then 1 else 0
    }

    method Visit(m: Mount, a: Attempt, errors: int, ghost order: seq<Mount>, ghost env: seq<Attempt>,
        ghost k: nat, ghost text: string)
      returns (errors': int)
      requires list.Linked() && m in list.contents
      requires k < |order| == |env| && order[k] == m && env[k] == a && Progress(order, env, k, text, errors)
      modifies this, table
      ensures Progress(order, env, k + 1, text, errors') && visited == old(visited) + [m]
    {
      WalkNext(list.contents, writable, order, env, k, text);
      var ret := UmountOne(m, a);
      errors' := if ret != 0 then 1 else errors;
    }

    /** The walk stands at node i: k visits are made, and those still to come are those for the nodes before. */
    ghost predicate Walking(types: seq<string>, env: seq<Attempt>, order: seq<Mount>, base: seq<Mount>, text: string,
                            i: nat, k: nat, errors: int)
      reads this, table, list, list.nodes
    {
      && list.Valid() && i < |list.nodes| && k <= |order| == |env|
      && order[k..] == WalkOrder(list.contents[..i], types)
      && visited == base + order[..k] && Progress(order, env, k, text, errors)
    }

    /** The visit, or not, of one list node. */
    method VisitNode(mc: Node, types: seq<string>, env: seq<Attempt>, k: nat, errors: int,
                     ghost order: seq<Mount>, ghost base: seq<Mount>, ghost text: string, ghost i: nat)
      returns (mc': Node, k': nat, errors': int)
      requires Walking(types, env, order, base, text, i, k, errors) && 0 < i && mc == list.nodes[i]
      modifies this, table
      ensures Walking(types, env, order, base, text, i - 1, k', errors') && mc' == list.nodes[i - 1]
    {
      list.NodeAt(i);
      mc' := mc.prev;
      WalkOrderStep(order, k, list.contents, types, i);
      k', errors' := k, errors;
      var matches := MatchType(mc.value.kind, types);
      if matches {
        errors' := Visit(mc.value, env[k], errors, order, env, k, text);
        k' := k + 1;
        OneMore(base, order, k);
      }
    }

    /** Before the first visit. */
    lemma WalkStarts(types: seq<string>, env: seq<Attempt>, order: seq<Mount>)
      requires list.Valid() && noMtab == 0 && order == WalkOrder(list.contents, types) && |env| == |order|
      ensures Walking(types, env, order, visited, table.text, |list.contents|, 0, 0)
    {
      assert list.contents[..|list.contents|] == list.contents && order[0..] == order && visited + [] == visited;
    }

    /** The loop of umount_all over the back links. */
    method WalkBack(types: seq<string>, env: seq<Attempt>, ghost order: seq<Mount>) returns (errors: int)
      requires list.Valid() && noMtab == 0 && order == WalkOrder(list.contents, types) && |env| == |order|
      modifies this, table
      ensures visited == old(visited) + order
      ensures Progress(order, env, |order|, old(table.text), errors)
    {
      WalkStarts(types, env, order);
      errors := 0;
      var mc: Node, k: nat := list.head.prev, 0;
      ghost var i: nat := |list.contents|;
      while mc != list.head
        invariant Walking(types, env, order, old(visited), old(table.text), i, k, errors) && mc == list.nodes[i]
        decreases i
      {
        mc, k, errors := VisitNode(mc, types, env, k, errors, order, old(visited), old(table.text), i);
        i := i - 1;
      }
      assert list.nodes[0] == list.head;
      assert i == 0 && order[k..] == [];
      assert order[..k] == order;
    }

    /** umount_all, with one result of the kernel for every visit; without a list to go back through it exits with
        status 2. With a writable well-formed table and no loop devices, the entries that remain are the original ones
        minus those that the walk released, and the status is 1 exactly when some unmount did not work. */
    method UmountAll(types: seq<string>, env: seq<Attempt>) returns (errors: int)
      requires if list.head.prev == null then list.Linked() else list.Valid()
      requires noMtab == 0 && |env| == |WalkOrder(list.contents, types)|
      modifies this, table
      ensures list.head.prev == null ==> errors == 2 && visited == old(visited) && table.text == old(table.text)
      ensures var order := WalkOrder(list.contents, types);
              list.head.prev != null ==>
                && visited == old(visited) + order
                && table.text == (if table.exists_ && !table.symlink
                                  then WalkText(list.contents, writable, order, env, old(table.text))
                                  else old(table.text))
                && errors == if AnyFails(list.contents, writable, order, env) then 1 else 0
      ensures var es, order := ReadAll(Open(old(table.text))), WalkOrder(list.contents, types);
              && list.head.prev != null && table.exists_ && !table.symlink && writable && NoLoops(list.contents)
              && AllWellFormed(es) && AllFit(es) ==>
                && ReadAll(Open(table.text)) == Minus(es, Released(order, env))
                && (errors == 1 <==> exists i | 0 <= i < |order| :: !UnmountedAt(order, env, i))
    {
      if list.head.prev == null { return 2; }
      ghost var order, es := WalkOrder(list.contents, types), ReadAll(Open(table.text));
      if writable && NoLoops(list.contents) && AllWellFormed(es) && AllFit(es) {
        WalkWithoutLoops(list.contents, order, env, table.text);
        StatusWithoutLoops(list.contents, writable, order, env);
      }
      errors := WalkBack(types, env, order);
      assert order[..|env|] == order && env[..|env|] == env;
    }
  }

  // ----- the whole walk -----

  /** The visits of umount_all: from the end of the list, those whose type matches. */
  function WalkOrder(cache: seq<Mount>, types: seq<string>): seq<Mount>
  {
    if cache == [] then []
    else
      var k := |cache| - 1;
      (if MatchingType(cache[k].kind, types) then [cache[k]] else []) + WalkOrder(cache[..k], types)
  }

  predicate NoRoot(ms: seq<Mount>) { forall i | 0 <= i < |ms| :: !IsRoot(ms[i]) }

  function WalkText(cache: seq<Mount>, writable: bool, ms: seq<Mount>, env: seq<Attempt>, text: string): string
    requires |ms| == |env|
  {
    if ms == [] then text
    else
      var k := |ms| - 1;
      var before := WalkText(cache, writable, ms[..k], env[..k], text);
      if NoRoot(ms) && Drops(cache, writable, ms[k], env[k]) then UpdateText(before, ms[k].dir, None) else before
  }

  predicate AnyFails(cache: seq<Mount>, writable: bool, ms: seq<Mount>, env: seq<Attempt>)
    requires |ms| == |env|
  {
    exists i | 0 <= i < |ms| :: FailsAt(cache, writable, ms, env, i)
  }

  predicate FailsAt(cache: seq<Mount>, writable: bool, ms: seq<Mount>, env: seq<Attempt>, i: nat)
    requires i < |ms| == |env|
  {
    Fails(cache, writable, !NoRoot(ms[..i + 1]), ms[i], env[i])
  }

  lemma OneMore(base: seq<Mount>, order: seq<Mount>, k: nat)
    requires k < |order|
    ensures (base + order[..k]) + [order[k]] == base + order[..k + 1]
  {
  }

  lemma WalkOrderStep(order: seq<Mount>, k: nat, cache: seq<Mount>, types: seq<string>, i: nat)
    requires 0 < i <= |cache| && k <= |order| && order[k..] == WalkOrder(cache[..i], types)
    ensures if MatchingType(cache[i - 1].kind, types)
            then k < |order| && order[k] == cache[i - 1] && order[k + 1..] == WalkOrder(cache[..i - 1], types)
            else order[k..] == WalkOrder(cache[..i - 1], types)
  {
    assert cache[..i][..i - 1] == cache[..i - 1];
    if MatchingType(cache[i - 1].kind, types) {
      assert order[k..][0] == cache[i - 1];
      assert order[k + 1..] == order[k..][1..];
    }
  }

  lemma WalkSnoc(
    cache: seq<Mount>, writable: bool, ms: seq<Mount>, env: seq<Attempt>, m: Mount, a: Attempt, text: string
  )
    requires |ms| == |env|
    ensures NoRoot(ms + [m]) <==> NoRoot(ms) && !IsRoot(m)
    ensures var before := WalkText(cache, writable, ms, env, text);
            WalkText(cache, writable, ms + [m], env + [a], text) ==
              if NoRoot(ms + [m]) && Drops(cache, writable, m, a) then UpdateText(before, m.dir, None) else before
  {
    assert (ms + [m])[..|ms|] == ms && (env + [a])[..|ms|] == env;
    if NoRoot(ms + [m]) {
      forall i | 0 <= i < |ms| ensures !IsRoot(ms[i]) { assert !IsRoot((ms + [m])[i]); }
      assert !IsRoot((ms + [m])[|ms|]);
    }
  }

  lemma AnyFailsSnoc(cache: seq<Mount>, writable: bool, ms: seq<Mount>, env: seq<Attempt>, m: Mount, a: Attempt)
    requires |ms| == |env|
    ensures AnyFails(cache, writable, ms + [m], env + [a]) <==>
              AnyFails(cache, writable, ms, env) || Fails(cache, writable, !NoRoot(ms + [m]), m, a)
  {
    var ms', env' := ms + [m], env + [a];
    forall i | 0 <= i < |ms| ensures FailsAt(cache, writable, ms', env', i) <==> FailsAt(cache, writable, ms, env, i) {
      assert ms'[..i + 1] == ms[..i + 1];
    }
    assert ms'[..|ms| + 1] == ms';
    assert FailsAt(cache, writable, ms', env', |ms|) <==> Fails(cache, writable, !NoRoot(ms'), m, a);
    if AnyFails(cache, writable, ms, env) {
      var i :| 0 <= i < |ms| && FailsAt(cache, writable, ms, env, i);
      assert FailsAt(cache, writable, ms', env', i);
    }
  }

  lemma WalkNext(cache: seq<Mount>, writable: bool, ms: seq<Mount>, env: seq<Attempt>, k: nat, text: string)
    requires k < |ms| == |env|
    ensures NoRoot(ms[..k + 1]) <==> NoRoot(ms[..k]) && !IsRoot(ms[k])
    ensures var before := WalkText(cache, writable, ms[..k], env[..k], text);
            WalkText(cache, writable, ms[..k + 1], env[..k + 1], text) ==
              if NoRoot(ms[..k + 1]) && Drops(cache, writable, ms[k], env[k])
              then UpdateText(before, ms[k].dir, None) else before
    ensures AnyFails(cache, writable, ms[..k + 1], env[..k + 1]) <==>
              AnyFails(cache, writable, ms[..k], env[..k])
                  || Fails(cache, writable, !NoRoot(ms[..k + 1]), ms[k], env[k])
  {
    var m, a := ms[k], env[k];
    var ms0, env0 := ms[..k], env[..k];
    assert ms[..k + 1] == ms0 + [m] && env[..k + 1] == env0 + [a];
    WalkSnoc(cache, writable, ms0, env0, m, a, text);
    AnyFailsSnoc(cache, writable, ms0, env0, m, a);
  }

  /** The entries of matching type, in order. */
  function Matching(cache: seq<Mount>, types: seq<string>): seq<Mount>
  {
    if cache == [] then []
    else
      var k := |cache| - 1;
      Matching(cache[..k], types) + if MatchingType(cache[k].kind, types) then [cache[k]] else []
  }

  /** a is b backwards. */
  predicate Mirrors(a: seq<Mount>, b: seq<Mount>)
  {
    |a| == |b| && forall i | 0 <= i < |a| :: a[i] == b[|b| - 1 - i]
  }

  lemma MirrorsMore(a: seq<Mount>, b: seq<Mount>, x: Mount)
    requires Mirrors(a, b)
    ensures Mirrors([x] + a, b + [x])
  {
  }

  /** Every entry of matching type, which is every non-swap entry if no types are given, is visited exactly once, in
      reverse order. */
  lemma {:induction false} VisitsReversed(cache: seq<Mount>, types: seq<string>)
    ensures Mirrors(WalkOrder(cache, types), Matching(cache, types))
  {
    if cache != [] {
      var k := |cache| - 1;
      VisitsReversed(cache[..k], types);
      if MatchingType(cache[k].kind, types) {
        MirrorsMore(WalkOrder(cache[..k], types), Matching(cache[..k], types), cache[k]);
      }
    }
  }

  /** Visit i comes before the walk first met a root entry, and its unmount lets the entry go. */
  predicate DropsAt(cache: seq<Mount>, writable: bool, ms: seq<Mount>, env: seq<Attempt>, i: nat)
    requires i < |ms| == |env|
  {
    NoRoot(ms[..i + 1]) && Drops(cache, writable, ms[i], env[i])
  }

  /** The directories whose entries the walk removes. */
  function Dropped(cache: seq<Mount>, writable: bool, ms: seq<Mount>, env: seq<Attempt>): set<string>
    requires |ms| == |env|
  {
    set i | 0 <= i < |ms| && DropsAt(cache, writable, ms, env, i) :: ms[i].dir
  }

  lemma DroppedStep(cache: seq<Mount>, writable: bool, ms: seq<Mount>, env: seq<Attempt>, k: nat)
    requires |ms| == |env| == k + 1
    ensures Dropped(cache, writable, ms, env) == Dropped(cache, writable, ms[..k], env[..k]) +
              if NoRoot(ms) && Drops(cache, writable, ms[k], env[k]) then {ms[k].dir} else {}
  {
    forall i | 0 <= i < k
      ensures DropsAt(cache, writable, ms, env, i) <==> DropsAt(cache, writable, ms[..k], env[..k], i)
    {
      assert ms[..k][..i + 1] == ms[..i + 1];
    }
    assert ms[..k + 1] == ms;
    assert DropsAt(cache, writable, ms, env, k) <==> NoRoot(ms) && Drops(cache, writable, ms[k], env[k]);
    var lhs, init := Dropped(cache, writable, ms, env), Dropped(cache, writable, ms[..k], env[..k]);
    forall d | d in init ensures d in lhs {
      var i :| 0 <= i < k && DropsAt(cache, writable, ms[..k], env[..k], i) && ms[..k][i].dir == d;
      assert DropsAt(cache, writable, ms, env, i) && ms[i].dir == d;
    }
    forall d | d in lhs && d !in init ensures DropsAt(cache, writable, ms, env, k) && d == ms[k].dir {
      var i :| 0 <= i < |ms| && DropsAt(cache, writable, ms, env, i) && ms[i].dir == d;
    }
  }

  /** Over the whole walk: re-reading the table gives the original entries minus those whose directory matches a visit
      made before the walk first met a root entry and that either succeeded or found the directory obsolete. */
  lemma {:induction false} WalkRemovesExactly(
    cache: seq<Mount>, writable: bool, ms: seq<Mount>, env: seq<Attempt>, text: string
  )
    requires |ms| == |env|
    requires var es := ReadAll(Open(text)); AllWellFormed(es) && AllFit(es)
    ensures ReadAll(Open(WalkText(cache, writable, ms, env, text)))
         == Minus(ReadAll(Open(text)), Dropped(cache, writable, ms, env))
  {
    var es := ReadAll(Open(text));
    if ms == [] {
      assert Dropped(cache, writable, ms, env) == {};
      MinusNothing(es);
    } else {
      var k := |ms| - 1;
      var dropped := Dropped(cache, writable, ms[..k], env[..k]);
      var before := WalkText(cache, writable, ms[..k], env[..k], text);
      WalkRemovesExactly(cache, writable, ms[..k], env[..k], text);
      DroppedStep(cache, writable, ms, env, k);
      MinusFacts(es, dropped);
      RemovalReadsBack(before, ms[k].dir);
      MinusMinus(es, dropped, {ms[k].dir});
      assert dropped + {} == dropped;
    }
  }

  lemma {:induction false} MinusNothing(es: seq<Entry>)
    ensures Minus(es, {}) == es
  {
    if es != [] { MinusNothing(es[1..]); }
  }

  lemma {:induction false} FindIsCached(cache: seq<Mount>, name: string)
    ensures Find(cache, name).Some? ==> Find(cache, name).value in cache
  {
    if cache != [] { FindIsCached(cache[1..], name); }
  }

  predicate NoLoops(cache: seq<Mount>) { forall c <- cache :: c.kind != "loop" && !HasLoopOption(Tokens(c.opts)) }

  /** Visit i was answered with success for the directory or else, unless that was busy (16), for another device. */
  predicate UnmountedAt(ms: seq<Mount>, env: seq<Attempt>, i: nat)
    requires i < |ms| == |env|
  {
    || env[i].first == None
    || (env[i].first != Some(16) && ms[i].dir != ms[i].fsname && env[i].second == None)
  }

  predicate RootAt(ms: seq<Mount>, j: nat)
    requires j < |ms|
  {
    ms[j].dir == "/" || ms[j].dir == "root" || ms[j].dir == "rootfs"
  }

  /** Visit i comes before the walk first met a root entry, and it unmounted, or its directory was not a mount point
      (22) or not there (2). */
  predicate ReleasedAt(ms: seq<Mount>, env: seq<Attempt>, i: nat)
    requires i < |ms| == |env|
  {
    && (forall j | 0 <= j <= i :: !RootAt(ms, j))
    && (UnmountedAt(ms, env, i) || env[i].first == Some(22) || env[i].first == Some(2))
  }

  /** The directories of these visits. */
  function Released(ms: seq<Mount>, env: seq<Attempt>): set<string>
    requires |ms| == |env|
  {
    set i | 0 <= i < |ms| && ReleasedAt(ms, env, i) :: ms[i].dir
  }

  lemma NothingStuck(cache: seq<Mount>, m: Mount, a: Attempt)
    requires NoLoops(cache)
    ensures !LoopStuck(cache, m, a)
  {
    FindIsCached(cache, m.fsname);
    FindIsCached(cache, m.dir);
  }

  lemma RootsBefore(ms: seq<Mount>, i: nat)
    requires i < |ms|
    ensures NoRoot(ms[..i + 1]) <==> forall j | 0 <= j <= i :: !RootAt(ms, j)
  {
    if NoRoot(ms[..i + 1]) {
      forall j | 0 <= j <= i ensures !RootAt(ms, j) { assert !IsRoot(ms[..i + 1][j]); }
    } else {
      var j :| 0 <= j < i + 1 && IsRoot(ms[..i + 1][j]);
      assert RootAt(ms, j);
    }
  }

  lemma DroppedIsReleased(cache: seq<Mount>, ms: seq<Mount>, env: seq<Attempt>)
    requires |ms| == |env| && NoLoops(cache)
    ensures Dropped(cache, true, ms, env) == Released(ms, env)
  {
    forall i | 0 <= i < |ms| ensures DropsAt(cache, true, ms, env, i) <==> ReleasedAt(ms, env, i) {
      NothingStuck(cache, ms[i], env[i]);
      RootsBefore(ms, i);
    }
  }

  /** The whole walk without loop devices and with a writable table, in terms of what the kernel answered. */
  lemma WalkWithoutLoops(cache: seq<Mount>, ms: seq<Mount>, env: seq<Attempt>, text: string)
    requires |ms| == |env| && NoLoops(cache)
    requires var es := ReadAll(Open(text)); AllWellFormed(es) && AllFit(es)
    ensures ReadAll(Open(WalkText(cache, true, ms, env, text))) == Minus(ReadAll(Open(text)), Released(ms, env))
  {
    WalkRemovesExactly(cache, true, ms, env, text);
    DroppedIsReleased(cache, ms, env);
  }

  /** The status without loop devices: some unmount did not work. */
  lemma StatusWithoutLoops(cache: seq<Mount>, writable: bool, ms: seq<Mount>, env: seq<Attempt>)
    requires |ms| == |env| && NoLoops(cache)
    ensures AnyFails(cache, writable, ms, env) <==> exists i | 0 <= i < |ms| :: !UnmountedAt(ms, env, i)
  {
    forall i | 0 <= i < |ms| ensures FailsAt(cache, writable, ms, env, i) <==> !UnmountedAt(ms, env, i) {
      NothingStuck(cache, ms[i], env[i]);
    }
  }

  /** With a table that cannot be written only the entries that were obsolete and did not unmount by device go. */
  lemma DropsUnwritable(cache: seq<Mount>, ms: seq<Mount>, env: seq<Attempt>, i: nat)
    requires i < |ms| == |env|
    ensures Drops(cache, false, ms[i], env[i])
       <==> !UnmountedAt(ms, env, i) && (env[i].first == Some(22) || env[i].first == Some(2))
  {
  }

  /** k is the first cached entry with the name for a directory or a device. */
  predicate FirstNamed(cache: seq<Mount>, name: string, k: nat)
  {
    && k < |cache| && (cache[k].dir == name || cache[k].fsname == name)
    && forall j | 0 <= j < k :: cache[j].dir != name && cache[j].fsname != name
  }

  lemma {:induction false} FindsFirst(cache: seq<Mount>, name: string, k: nat)
    requires FirstNamed(cache, name, k)
    ensures Find(cache, name) == Some(cache[k])
  {
    if k > 0 {
      assert cache[0].dir != name && cache[0].fsname != name;
      FindsFirst(cache[1..], name, k - 1);
    }
  }

  /** Freeing the loop device that an entry names, as its type or in an option, fails. */
  predicate LoopFails(m: Mount, a: Attempt)
  {
    || (m.kind == "loop" && a.oldLoopFails)
    || ((exists t <- Tokens(m.opts) :: "loop=" <= t) && a.newLoopFails)
  }

  lemma StuckExactly(cache: seq<Mount>, m: Mount, a: Attempt, k: nat)
    requires FirstNamed(cache, m.fsname, k)
    ensures LoopStuck(cache, m, a) <==> LoopFails(cache[k], a)
  {
    FindsFirst(cache, m.fsname, k);
    LoopOptionExactly(Tokens(cache[k].opts));
  }

  /** With loop devices: it is the first entry for the device that names one. When freeing it fails, the entry stays
      unless its directory was obsolete, and the unmount counts as failed until a root entry has been met. */
  lemma LoopDevices(cache: seq<Mount>, ms: seq<Mount>, env: seq<Attempt>, i: nat, k: nat, noMtab: bool)
    requires i < |ms| == |env| && FirstNamed(cache, ms[i].fsname, k)
    ensures Drops(cache, true, ms[i], env[i]) <==>
              || (UnmountedAt(ms, env, i) && !LoopFails(cache[k], env[i]))
              || env[i].first == Some(22) || env[i].first == Some(2)
    ensures Fails(cache, true, noMtab, ms[i], env[i]) <==>
              !UnmountedAt(ms, env, i) || (LoopFails(cache[k], env[i]) && !noMtab)
  {
    StuckExactly(cache, ms[i], env[i], k);
  }

  lemma LoopOptionExactly(tokens: seq<string>)
    ensures HasLoopOption(tokens) <==> exists t <- tokens :: "loop=" <= t
  {
    if HasLoopOption(tokens) {
      var i :| 0 <= i < |tokens| && StartsWith(tokens[i], "loop=");
      assert tokens[i] in tokens;
    }
    forall t | t in tokens && "loop=" <= t ensures HasLoopOption(tokens) {
      var j :| 0 <= j < |tokens| && tokens[j] == t;
      assert StartsWith(tokens[j], "loop=");
    }
  }

  // ----- what is cached, and which types match -----

  /** The cache holds device, directory, type and options of the entries before the first one of type "ignore". */
  lemma {:induction false} CachedExactly(es: seq<Entry>, n: nat)
    requires n <= |es| && (n < |es| ==> es[n].kind == "ignore")
    requires forall i | 0 <= i < n :: es[i].kind != "ignore"
    ensures |Cached(es)| == n
    ensures forall i | 0 <= i < n :: Cached(es)[i] == Mount(es[i].fsname, es[i].dir, es[i].kind, es[i].opts)
  {
    if n > 0 { CachedExactly(es[1..], n - 1); }
  }

  predicate Negative(t: string) { |t| >= 2 && t[0] == 'n' && t[1] == 'o' }

  /** Which types a list selects: without a list, or with one of types only, or with one of "no" types only. */
  lemma TypesSelected(kind: string, types: seq<string>)
    ensures types == [] ==> (MatchingType(kind, types) <==> kind != "swap")
    ensures types != [] && (forall t <- types :: !Negative(t)) ==>
              (MatchingType(kind, types) <==> kind != "swap" && kind in types)
    ensures types != [] && (forall t <- types :: Negative(t)) && !Negative(kind) ==>
              (MatchingType(kind, types) <==> kind != "swap" && forall t <- types :: t[2..] != kind)
  {
    if types != [] {
      var last := types[|types| - 1];
      assert last in types && (StartsWith(last, "no") <==> Negative(last));
      NegativeOf(kind);
      if forall t <- types :: Negative(t) { Mentioned(kind, types); }
    }
  }

  lemma NegativeOf(kind: string)
    ensures Negative("no" + kind) && ("no" + kind)[2..] == kind
  {
  }

  lemma Mentioned(kind: string, types: seq<string>)
    requires forall t <- types :: Negative(t)
    ensures "no" + kind in types <==> exists t <- types :: Negative(t) && t[2..] == kind
    ensures !Negative(kind) ==> kind !in types
  {
    NegativeOf(kind);
    forall t | t in types && t[2..] == kind ensures t == "no" + kind {
      assert t == "no" + t[2..];
    }
  }
}
