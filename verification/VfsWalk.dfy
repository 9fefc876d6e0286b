/** Paths and mounts: how a path becomes an inode, across a table of mounts that is
    followed as a chain. Inodes are positive numbers, standing for their
    addresses; 0 is the null pointer. */
module VfsWalk {
  import opened Bytes
  import opened Kernel

  const VFS_PATH_MAX: nat := 64
  const VFS_NAME_MAX: nat := 14
  const MAX_MOUNTS: nat := 4

  // ---- the mount table -----------------------------------------------------------

  /** A slot: `root` covers `point`; a slot with point 0 is free. */
  datatype Mount = Mount(point: int, root: Inode)

  /** What covers `a`: the root of the first slot that has it as its point. */
  function Follow(t: seq<Mount>, a: Inode): Option<Inode> {
    if t == [] then None
    else if t[0].point == a then Some(t[0].root)
    else Follow(t[1..], a)
  }

  /** The first slot that covers an inode is the one that counts. */
  lemma {:induction false} FollowMeans(t: seq<Mount>, a: Inode)
    ensures Follow(t, a) == None <==> forall i :: 0 <= i < |t| ==> t[i].point != a
    ensures forall i :: 0 <= i < |t| && t[i].point == a && (forall j :: 0 <= j < i ==> t[j].point != a) ==> Follow(t, a) == Some(t[i].root)
    decreases |t|
  {
    if t != [] {
      FollowMeans(t[1..], a);
      assert forall i :: 1 <= i < |t| ==> t[i] == t[1..][i - 1];
      if t[0].point != a {
        forall i | 0 <= i < |t| && t[i].point == a && (forall j :: 0 <= j < i ==> t[j].point != a)
          ensures Follow(t, a) == Some(t[i].root)
        {
          assert t[1..][i - 1].point == a;
          assert forall j :: 0 <= j < i - 1 ==> t[1..][j].point != a;
        }
      }
    }
  }

  /** At most `rounds` steps along the chain of mounts above `a`. */
  function Settle(t: seq<Mount>, a: Inode, rounds: nat): Inode
    decreases rounds
  {
    if rounds == 0 || Follow(t, a) == None then a else Settle(t, Follow(t, a).value, rounds - 1)
  }

  /** Exactly `k` steps along the chain, if it is that long. */
  function Steps(t: seq<Mount>, a: Inode, k: nat): Option<Inode>
    decreases k
  {
    if k == 0 then Some(a)
    else if Follow(t, a) == None then None
    else Steps(t, Follow(t, a).value, k - 1)
  }

  /** No chain leads back to where it started. */
  ghost predicate Acyclic(t: seq<Mount>) {
    forall a: Inode, k: nat :: k > 0 ==> Steps(t, a, k) != Some(a)
  }

  /** As many rounds as there are slots reach an inode that nothing covers. */
  predicate Ends(t: seq<Mount>, a: Inode) { Follow(t, Settle(t, a, |t|)) == None }

  lemma {:induction false} StepsAdd(t: seq<Mount>, a: Inode, i: nat, j: nat)
    requires Steps(t, a, i).Some?
    ensures Steps(t, a, i + j) == Steps(t, Steps(t, a, i).value, j)
    decreases i
  {
    if i > 0 {
      StepsAdd(t, Follow(t, a).value, i - 1, j);
    }
  }

  lemma {:induction false} StepsShorter(t: seq<Mount>, a: Inode, i: nat, k: nat)
    requires i <= k && Steps(t, a, k).Some?
    ensures Steps(t, a, i).Some?
    decreases i
  {
    if i > 0 {
      StepsShorter(t, Follow(t, a).value, i - 1, k - 1);
    }
  }

  predicate SettledAfter(t: seq<Mount>, a: Inode, n: nat, k: nat) {
    Steps(t, a, k) == Some(Settle(t, a, n)) && (k < n ==> Follow(t, Settle(t, a, n)) == None)
  }

  lemma {:induction false} SettleIsSteps(t: seq<Mount>, a: Inode, n: nat)
    ensures exists k :: 0 <= k <= n && SettledAfter(t, a, n, k)
    decreases n
  {
    if n == 0 || Follow(t, a) == None {
      assert SettledAfter(t, a, n, 0);
    } else {
      var b := Follow(t, a).value;
      SettleIsSteps(t, b, n - 1);
      var k :| 0 <= k <= n - 1 && SettledAfter(t, b, n - 1, k);
      assert SettledAfter(t, a, n, k + 1);
    }
  }

  /** The slot a step goes through. */
  function Via(t: seq<Mount>, a: Inode): (i: nat)
    requires Follow(t, a).Some?
    ensures i < |t| && t[i].point == a && Follow(t, a) == Some(t[i].root)
  {
    if t[0].point == a then 0 else 1 + Via(t[1..], a)
  }

  /** More arrivals than places: two arrive at the same one. */
  lemma {:induction false} Pigeonhole(f: seq<nat>, n: nat)
    requires |f| > n > 0 && forall i :: 0 <= i < |f| ==> f[i] < n
    ensures exists i, j :: 0 <= i < j < |f| && f[i] == f[j]
    decreases n
  {
    if n == 1 {
      assert f[0] == f[1] == 0;
    } else if i, j :| 0 <= i < j < |f| && f[i] == f[j] == n - 1 {
    } else {
      var last := |f| - 1;
      var at := if m :| 0 <= m < |f| && f[m] == n - 1 then m else last;
      var g := f[..at] + f[at + 1..];
      forall i | 0 <= i < |g|
        ensures g[i] < n - 1
      {
        assert g[i] == f[if i < at then i else i + 1];
      }
      Pigeonhole(g, n - 1);
      var i, j :| 0 <= i < j < |g| && g[i] == g[j];
      var i', j' := if i < at then i else i + 1, if j < at then j else j + 1;
      assert f[i'] == g[i] && f[j'] == g[j];
    }
  }

  /** A chain longer than the table meets some inode twice. */
  lemma LongChainLoops(t: seq<Mount>, a: Inode)
    requires !Ends(t, a)
    ensures exists b: Inode, k: nat :: k > 0 && Steps(t, b, k) == Some(b)
  {
    var n := |t|;
    SettleIsSteps(t, a, n);
    assert Steps(t, a, n).Some?;
    forall i | 0 <= i <= n
      ensures Steps(t, a, i).Some? && Follow(t, Steps(t, a, i).value).Some?
    {
      StepsShorter(t, a, i, n);
      if i < n {
        StepsShorter(t, a, i + 1, n);
        StepsAdd(t, a, i, 1);
      }
    }
    var f := seq(n + 1, i requires 0 <= i <= n && Steps(t, a, i).Some? && Follow(t, Steps(t, a, i).value).Some?
                          => Via(t, Steps(t, a, i).value));
    Pigeonhole(f, n);
    var i, j :| 0 <= i < j < |f| && f[i] == f[j];
    StepsAdd(t, a, i, j - i);
    assert Steps(t, Steps(t, a, i).value, j - i) == Some(Steps(t, a, i).value);
  }

  /** Without cycles the chain always ends in time. */
  lemma SettleEnds(t: seq<Mount>, a: Inode)
    requires Acyclic(t)
    ensures Ends(t, a)
  {
    if !Ends(t, a) {
      LongChainLoops(t, a);
    }
  }

  /** A cycle never ends. */
  lemma {:induction false} CycleNeverEnds(t: seq<Mount>, a: Inode, k: nat, n: nat)
    requires k > 0 && Steps(t, a, k) == Some(a)
    ensures Steps(t, a, n).Some?
    decreases n
  {
    if n <= k {
      StepsShorter(t, a, n, k);
    } else {
      CycleNeverEnds(t, a, k, n - k);
      StepsAdd(t, a, k, n - k);
    }
  }

  /** Settling always ends exactly when there is no cycle. */
  lemma SettlesIffAcyclic(t: seq<Mount>)
    ensures Acyclic(t) <==> forall a: Inode :: Ends(t, a)
  {
    if Acyclic(t) {
      forall a: Inode
        ensures Ends(t, a)
      {
        SettleEnds(t, a);
      }
    } else {
      var a: Inode, k: nat :| k > 0 && Steps(t, a, k) == Some(a);
      SettleIsSteps(t, a, |t|);
      var i :| 0 <= i <= |t| && SettledAfter(t, a, |t|, i);
      CycleNeverEnds(t, a, k, i + 1);
      StepsAdd(t, a, i, 1);
      assert Steps(t, Settle(t, a, |t|), 1).Some?;
      assert !Ends(t, a);
    }
  }

  /** The bound is tight: a chain through all slots needs all rounds. */
  lemma FullChainNeedsAllRounds()
    ensures var t := [Mount(1, 2), Mount(2, 3), Mount(3, 4), Mount(4, 5)];
      |t| == MAX_MOUNTS && Settle(t, 1, MAX_MOUNTS) == 5 && Settle(t, 1, MAX_MOUNTS - 1) == 4 && Follow(t, 4).Some?
  {
    var t := [Mount(1, 2), Mount(2, 3), Mount(3, 4), Mount(4, 5)];
    assert t[1..] == [Mount(2, 3), Mount(3, 4), Mount(4, 5)];
    assert t[1..][1..] == [Mount(3, 4), Mount(4, 5)];
    assert t[1..][1..][1..] == [Mount(4, 5)];
    assert Follow(t, 1) == Some(2) && Follow(t, 2) == Some(3) && Follow(t, 3) == Some(4) && Follow(t, 4) == Some(5);
    assert Settle(t, 4, 1) == 5 && Settle(t, 4, 0) == 4;
    assert Settle(t, 3, 2) == 5 && Settle(t, 3, 1) == 4;
    assert Settle(t, 2, 3) == 5 && Settle(t, 2, 2) == 4;
  }

  // ---- mounting ------------------------------------------------------------------

  /** The table with `r` mounted over `p` in slot `i`. */
  function Mounted(t: seq<Mount>, i: nat, p: Inode, r: Inode): seq<Mount>
    requires i < |t|
  {
    t[i := Mount(p, r)]
  }

  /** Taking a free slot covers `p`, if nothing did, and nothing else. */
  lemma {:induction false} FollowMounted(t: seq<Mount>, i: nat, p: Inode, r: Inode, a: Inode)
    requires i < |t| && t[i].point == 0 && Follow(t, p) == None
    ensures Follow(Mounted(t, i, p, r), a) == if a == p then Some(r) else Follow(t, a)
    decreases |t|
  {
    if i > 0 {
      assert Mounted(t, i, p, r)[1..] == Mounted(t[1..], i - 1, p, r);
      FollowMounted(t[1..], i - 1, p, r, a);
    } else {
      assert Mounted(t, i, p, r)[1..] == t[1..];
    }
  }

  /** A chain that does not meet `p` on the way is the same after the mount. */
  lemma {:induction false} StepsMounted(t: seq<Mount>, i: nat, p: Inode, r: Inode, a: Inode, k: nat)
    requires i < |t| && t[i].point == 0 && Follow(t, p) == None
    requires Steps(t, a, k).Some?
    ensures Steps(Mounted(t, i, p, r), a, k) == Steps(t, a, k)
    decreases k
  {
    FollowMounted(t, i, p, r, a);
    if k > 0 {
      StepsMounted(t, i, p, r, Follow(t, a).value, k - 1);
    }
  }

  /** The chain above `a` does not meet `p` in its first `k` places. */
  ghost predicate Avoids(t: seq<Mount>, a: Inode, p: Inode, k: nat) {
    forall j {:trigger Steps(t, a, j)} :: 0 <= j < k ==> Steps(t, a, j) != Some(p)
  }

  lemma {:induction false} FirstArrival(t: seq<Mount>, a: Inode, p: Inode, k: nat)
    requires Steps(t, a, k) == Some(p)
    ensures exists m: nat :: m <= k && Steps(t, a, m) == Some(p) && Avoids(t, a, p, m)
    decreases k
  {
    if !Avoids(t, a, p, k) {
      var j :| 0 <= j < k && Steps(t, a, j) == Some(p);
      FirstArrival(t, a, p, j);
    }
  }

  /** And a chain of the new table that never leaves `p` is one of the old. */
  lemma {:induction false} StepsUnmounted(t: seq<Mount>, i: nat, p: Inode, r: Inode, a: Inode, k: nat)
    requires i < |t| && t[i].point == 0 && Follow(t, p) == None
    requires Steps(Mounted(t, i, p, r), a, k).Some? && Avoids(Mounted(t, i, p, r), a, p, k)
    ensures Steps(t, a, k) == Steps(Mounted(t, i, p, r), a, k)
    decreases k
  {
    var t' := Mounted(t, i, p, r);
    FollowMounted(t, i, p, r, a);
    if k > 0 {
      assert Steps(t', a, 0) != Some(p);
      var b := Follow(t, a).value;
      forall j | 0 <= j < k - 1
        ensures Steps(t', b, j) != Some(p)
      {
        assert Steps(t', a, j + 1) == Steps(t', b, j);
      }
      StepsUnmounted(t, i, p, r, b, k - 1);
    }
  }

  /** A new cycle can only go through the new mount. */
  lemma NewCycleThroughPoint(t: seq<Mount>, i: nat, p: Inode, r: Inode, a: Inode, k: nat)
    requires i < |t| && t[i].point == 0 && Follow(t, p) == None && Acyclic(t)
    requires k > 0 && Steps(Mounted(t, i, p, r), a, k) == Some(a)
    ensures exists m: nat :: Steps(t, r, m) == Some(p)
  {
    var t' := Mounted(t, i, p, r);
    if Avoids(t', a, p, k) {
      StepsUnmounted(t, i, p, r, a, k);
    } else {
      // turn the cycle so that it starts at p
      var j :| 0 <= j < k && Steps(t', a, j) == Some(p);
      StepsAdd(t', a, j, k - j);
      StepsAdd(t', p, k - j, j);
      assert Steps(t', p, k) == Some(p);
      FollowMounted(t, i, p, r, p);
      assert Steps(t', r, k - 1) == Some(p);
      FirstArrival(t', r, p, k - 1);
      var m: nat :| m <= k - 1 && Steps(t', r, m) == Some(p) && Avoids(t', r, p, m);
      StepsUnmounted(t, i, p, r, r, m);
    }
  }

  /** What the check `punto == radice` misses: a mount keeps the table free of cycles
      exactly when the chain of the new root does not end at the covered inode. */
  lemma MountKeepsAcyclic(t: seq<Mount>, i: nat, p: Inode, r: Inode)
    requires i < |t| && t[i].point == 0 && Follow(t, p) == None && Acyclic(t)
    ensures Acyclic(Mounted(t, i, p, r)) <==> Settle(t, r, |t|) != p
  {
    var t' := Mounted(t, i, p, r);
    SettleIsSteps(t, r, |t|);
    var n :| 0 <= n <= |t| && SettledAfter(t, r, |t|, n);
    if Settle(t, r, |t|) == p {
      StepsMounted(t, i, p, r, r, n);
      FollowMounted(t, i, p, r, p);
      assert Steps(t', p, n + 1) == Steps(t', r, n) == Some(p);
    } else if !Acyclic(t') {
      var a: Inode, k: nat :| k > 0 && Steps(t', a, k) == Some(a);
      NewCycleThroughPoint(t, i, p, r, a, k);
      var m: nat :| Steps(t, r, m) == Some(p);
      SettleEnds(t, r);
      OneEnd(t, r, m, n);
    }
  }

  /** A chain has one end. */
  lemma OneEnd(t: seq<Mount>, a: Inode, m: nat, n: nat)
    requires Steps(t, a, m).Some? && Follow(t, Steps(t, a, m).value) == None
    requires Steps(t, a, n).Some? && Follow(t, Steps(t, a, n).value) == None
    ensures Steps(t, a, m) == Steps(t, a, n)
  {
    if m < n {
      StepsAdd(t, a, m, n - m);
    } else if n < m {
      StepsAdd(t, a, n, m - n);
    }
  }

  /** After a mount, what settled at the covered inode settles where the new root
      settles; everything else settles as before. */
  lemma SettleMounted(t: seq<Mount>, i: nat, p: Inode, r: Inode, a: Inode)
    requires i < |t| && t[i].point == 0 && Follow(t, p) == None
    requires Acyclic(t) && Settle(t, r, |t|) != p
    ensures Settle(Mounted(t, i, p, r), a, |t|) ==
      if Settle(t, a, |t|) == p then Settle(t, r, |t|) else Settle(t, a, |t|)
  {
    var t' := Mounted(t, i, p, r);
    MountKeepsAcyclic(t, i, p, r);
    SettleEnds(t', a);
    SettleEnds(t, a);
    SettleEnds(t, r);
    SettleIsSteps(t', a, |t|);
    SettleIsSteps(t, a, |t|);
    SettleIsSteps(t, r, |t|);
    var n' :| 0 <= n' <= |t| && SettledAfter(t', a, |t|, n');
    var n :| 0 <= n <= |t| && SettledAfter(t, a, |t|, n);
    var m :| 0 <= m <= |t| && SettledAfter(t, r, |t|, m);
    StepsMounted(t, i, p, r, a, n);
    if Settle(t, a, |t|) == p {
      StepsMounted(t, i, p, r, r, m);
      FollowMounted(t, i, p, r, p);
      FollowMounted(t, i, p, r, Settle(t, r, |t|));
      assert Steps(t', p, m + 1) == Steps(t', r, m);
      StepsAdd(t', a, n, m + 1);
      OneEnd(t', a, n', n + m + 1);
    } else {
      FollowMounted(t, i, p, r, Settle(t, a, |t|));
      OneEnd(t', a, n', n);
    }
  }

  // ---- paths ---------------------------------------------------------------------

  /** The length of the component at the head of `s`: up to the next slash or the
      end. */
  function NameLen(s: string): (n: nat)
    ensures n <= |s| && (n < |s| ==> s[n] == '/')
    ensures forall k :: 0 <= k < n ==> s[k] != '/'
  {
    if s == "" || s[0] == '/' then 0 else 1 + NameLen(s[1..])
  }

  /** The names between the slashes; runs of slashes and slashes at the end separate
      nothing. */
  function Components(s: string): seq<string>
    decreases |s|
  {
    if s == "" then []
    else if s[0] == '/' then Components(s[1..])
    else [s[..NameLen(s)]] + Components(s[NameLen(s)..])
  }

  lemma NameLenIs(s: string, n: nat)
    requires n <= |s| && (n < |s| ==> s[n] == '/')
    requires forall k :: 0 <= k < n ==> s[k] != '/'
    ensures NameLen(s) == n
  {
  }

  lemma NameFirst(s: string, n: nat)
    requires 0 < n <= |s| && (n < |s| ==> s[n] == '/')
    requires forall k :: 0 <= k < n ==> s[k] != '/'
    ensures Components(s) == [s[..n]] + Components(s[n..])
  {
    NameLenIs(s, n);
  }

  /** A slash cuts a path into two independent halves. */
  lemma {:induction false} ComponentsSplit(a: string, b: string)
    ensures Components(a + "/" + b) == Components(a) + Components(b)
    decreases |a|
  {
    var s := a + "/" + b;
    if a == "" {
      assert s[1..] == b;
    } else if a[0] == '/' {
      assert s[1..] == a[1..] + "/" + b;
      ComponentsSplit(a[1..], b);
    } else {
      hide Components;
      var n := NameLen(a);
      NameFirst(a, n);
      NameFirst(s, n);
      ComponentsSplit(a[n..], b);
      assert s[..n] == a[..n] && s[n..] == a[n..] + "/" + b;
    }
  }

  /** A path with doubled slashes squeezed to one and those at its end dropped. */
  function Squeezed(s: string): (r: string)
    ensures |r| <= |s| && (s != "" && s[0] == '/' && r != "" ==> r[0] == '/')
  {
    if s == "" then ""
    else if s[0] == '/' && (|s| == 1 || s[1] == '/') then Squeezed(s[1..])
    else [s[0]] + Squeezed(s[1..])
  }

  /** The path that leads through `names`. */
  function Joined(names: seq<string>): string {
    if names == [] then "" else "/" + names[0] + Joined(names[1..])
  }

  lemma {:induction false} SqueezedName(s: string, n: nat)
    requires n <= |s| && forall k :: 0 <= k < n ==> s[k] != '/'
    ensures Squeezed(s) == s[..n] + Squeezed(s[n..])
    decreases n
  {
    if n == 0 {
      assert s[0..] == s;
    } else {
      SqueezedName(s[1..], n - 1);
      assert s[1..][n - 1..] == s[n..] && s[..n] == [s[0]] + s[1..][..n - 1];
    }
  }

  /** A squeezed path is its components, each behind one slash. */
  lemma {:induction false} SqueezedIsJoined(s: string)
    requires s == "" || s[0] == '/'
    ensures Squeezed(s) == Joined(Components(s))
    decreases |s|
  {
    if s != "" {
      var rest := s[1..];
      if rest == "" || rest[0] == '/' {
        SqueezedIsJoined(rest);
      } else {
        var n := NameLen(rest);
        SqueezedName(rest, n);
        SqueezedIsJoined(rest[n..]);
        NameFirst(rest, n);
      }
    }
  }

  lemma SqueezedNameFirst(s: string, n: nat)
    requires 0 < n <= |s| && (n < |s| ==> s[n] == '/') && forall k :: 0 <= k < n ==> s[k] != '/'
    requires Components(Squeezed(s[n..])) == Components(s[n..])
    ensures Components(Squeezed(s)) == Components(s)
  {
    hide Components, Squeezed;
    var r, tail := Squeezed(s), Squeezed(s[n..]);
    SqueezedName(s, n);
    NameFirst(s, n);
    assert r[..n] == s[..n] && r[n..] == tail;
    NameFirst(r, n);
  }

  lemma {:induction false} SqueezedHasComponents(s: string)
    ensures Components(Squeezed(s)) == Components(s)
    decreases |s|
  {
    if s != "" {
      if s[0] == '/' {
        SqueezedHasComponents(s[1..]);
        if |s| > 1 && s[1] != '/' {
          assert Squeezed(s)[1..] == Squeezed(s[1..]);
        }
      } else {
        SqueezedHasComponents(s[NameLen(s)..]);
        SqueezedNameFirst(s, NameLen(s));
      }
    }
  }

  /** Two paths have the same components exactly if they differ in nothing but repeated
      and trailing slashes. */
  lemma SqueezedMeans(a: string, b: string)
    requires a != "" && a[0] == '/' && b != "" && b[0] == '/'
    ensures Components(a) == Components(b) <==> Squeezed(a) == Squeezed(b)
  {
    SqueezedIsJoined(a);
    SqueezedIsJoined(b);
    SqueezedHasComponents(a);
    SqueezedHasComponents(b);
  }

  /** Repeating a slash, or adding one at the end, is squeezed away. */
  lemma SlashesDoNotCount(a: string, b: string)
    requires a != "" && a[0] == '/'
    ensures Squeezed(a + "//" + b) == Squeezed(a + "/" + b)
    ensures Squeezed(a + "/") == Squeezed(a)
  {
    assert a + "//" + b == a + "/" + ("/" + b);
    ComponentsSplit(a, "/" + b);
    ComponentsSplit(a, b);
    assert ("/" + b)[1..] == b;
    assert a + "/" == a + "/" + "";
    ComponentsSplit(a, "");
    SqueezedMeans(a + "//" + b, a + "/" + b);
    SqueezedMeans(a + "/", a);
  }

  // ---- walking -------------------------------------------------------------------

  /** What the file systems below answer: which inodes are directories, which
      operations they have, what a name means in a directory, and what making one
      would yield. */
  datatype World = World(
    isDir: Inode -> bool,
    hasLookup: Inode -> bool,
    lookup: (Inode, string) -> Option<Inode>,
    hasCreate: Inode -> bool,
    create: (Inode, string, bool) -> Option<Inode>)

  /** The inode a name leads to from `cur`, before mounts are looked at. */
  function Find(w: World, cur: Inode, name: string): Option<Inode> {
    if |name| > VFS_NAME_MAX || !w.isDir(cur) || !w.hasLookup(cur) then None else w.lookup(cur, name)
  }

  /** One component: lookup, then whatever is mounted there. */
  function Enter(w: World, t: seq<Mount>, cur: Inode, name: string): Option<Inode> {
    match Find(w, cur, name)
    case None => None
    case Some(x) => Some(Settle(t, x, |t|))
  }

  /** The walk is a fold of Enter over the components. */
  function Walk(w: World, t: seq<Mount>, cur: Inode, names: seq<string>): Option<Inode>
    decreases |names|
  {
    if names == [] then Some(cur)
    else
      match Enter(w, t, cur, names[0])
      case None => None
      case Some(x) => Walk(w, t, x, names[1..])
  }

  /** One turn of the walk: slashes are skipped, a name is entered. */
  lemma WalkTurn(w: World, t: seq<Mount>, cur: Inode, path: string, p: nat, len: nat)
    requires p + len <= |path|
    requires len > 0 && (p + len < |path| ==> path[p + len] == '/') && forall k :: p <= k < p + len ==> path[k] != '/'
    ensures Walk(w, t, cur, Components(path[p..])) ==
      match Enter(w, t, cur, path[p..p + len]) case None => None case Some(x) => Walk(w, t, x, Components(path[p + len..]))
  {
    var rest := path[p..];
    NameLenIs(rest, len);
    assert rest[..len] == path[p..p + len] && rest[len..] == path[p + len..];
  }

  lemma AtEnd(path: string)
    ensures Components(path[|path|..]) == []
  {
  }

  lemma SkipSlash(path: string, p: nat)
    requires p < |path| && path[p] == '/'
    ensures Components(path[p..]) == Components(path[p + 1..])
  {
    assert path[p..][1..] == path[p + 1..];
  }

  predicate Accepted(path: string) {
    0 < |path| < VFS_PATH_MAX && path[0] == '/'
  }

  function Resolved(w: World, t: seq<Mount>, root: Inode, path: string): Option<Inode> {
    if Accepted(path) then Walk(w, t, Settle(t, root, |t|), Components(path)) else None
  }

  lemma {:induction false} WalkAppend(w: World, t: seq<Mount>, cur: Inode, a: seq<string>, b: seq<string>)
    ensures Walk(w, t, cur, a + b) ==
      match Walk(w, t, cur, a) case None => None case Some(x) => Walk(w, t, x, b)
    decreases |a|
  {
    if a == [] {
      assert a + b == b;
    } else {
      assert (a + b)[1..] == a[1..] + b;
      match Enter(w, t, cur, a[0])
      case None =>
      case Some(x) => WalkAppend(w, t, x, a[1..], b);
    }
  }

  /** Accepted paths that differ in nothing but repeated and trailing slashes mean the
      same inode; the shortest of these spellings is accepted too, unless it is empty
      as the one of the root is. */
  lemma SpellingDoesNotMatter(w: World, t: seq<Mount>, root: Inode, a: string, b: string)
    requires Accepted(a) && Accepted(b) && Squeezed(a) == Squeezed(b)
    ensures Resolved(w, t, root, a) == Resolved(w, t, root, b)
    ensures Squeezed(a) != "" ==>
      Accepted(Squeezed(a)) && Resolved(w, t, root, Squeezed(a)) == Resolved(w, t, root, a)
  {
    SqueezedMeans(a, b);
    SqueezedHasComponents(a);
  }

  /** What a path is refused for before anything is looked up. */
  lemma RefusedPaths(w: World, t: seq<Mount>, root: Inode, path: string)
    ensures path == "" || path[0] != '/' || |path| >= 64 ==> Resolved(w, t, root, path) == None
  {
  }

  /** The root is what is mounted there. */
  lemma ResolveRoot(w: World, t: seq<Mount>, root: Inode)
    ensures Resolved(w, t, root, "/") == Some(Settle(t, root, |t|))
  {
    assert Components("/") == Components("/"[1..]) == [];
  }

  /** One name more: it is looked up, if it has at most 14 characters, in the directory the
      path before it leads to, which must be one and know how; and what is found there is
      followed to what is mounted on it. */
  lemma ResolveOneMore(w: World, t: seq<Mount>, root: Inode, before: string, name: string)
    requires Accepted(before) && Accepted(before + "/" + name)
    requires name != "" && forall k :: 0 <= k < |name| ==> name[k] != '/'
    ensures Resolved(w, t, root, before + "/" + name) ==
      match Resolved(w, t, root, before)
      case None => None
      case Some(d) =>
        if |name| > 14 || !w.isDir(d) || !w.hasLookup(d) then None
        else match w.lookup(d, name) case None => None case Some(x) => Some(Settle(t, x, |t|))
  {
    hide Components;
    ComponentsSplit(before, name);
    ComponentsOfName(name);
    WalkAppend(w, t, Settle(t, root, |t|), Components(before), [name]);
    forall x: Inode
      ensures Walk(w, t, x, [name]) == Enter(w, t, x, name)
    {
      assert [name][1..] == [];
    }
  }

  function LastSlash(s: string): (c: nat)
    requires s != "" && s[0] == '/'
    ensures c < |s| && s[c] == '/' && forall k :: c < k < |s| ==> s[k] != '/'
  {
    if s[|s| - 1] == '/' then |s| - 1 else LastSlash(s[..|s| - 1])
  }

  /** The parent and the last name of a path: cut at the last slash. */
  function Split(path: string): Option<(string, string)> {
    if !Accepted(path) then None
    else
      var c := LastSlash(path);
      var last := path[c + 1..];
      if last == "" || |last| > VFS_NAME_MAX then None
      else Some((if c == 0 then "/" else path[..c], last))
  }

  /** A path splits exactly if it is accepted and ends in a name that fits, and then
      there is one way to cut it. */
  lemma SplitMeans(path: string, before: string, last: string)
    requires path == before + "/" + last && path[0] == '/' && forall k :: 0 <= k < |last| ==> last[k] != '/'
    ensures Split(path) ==
      if |path| < VFS_PATH_MAX && 0 < |last| <= VFS_NAME_MAX then Some((if before == "" then "/" else before, last))
      else None
  {
    forall k | |before| < k < |path|
      ensures path[k] != '/'
    {
      assert path[k] == last[k - |before| - 1];
    }
    assert path[|before|] == '/' && LastSlash(path) == |before|;
    assert path[..|before|] == before && path[|before| + 1..] == last;
  }

  lemma ComponentsOfName(last: string)
    requires last != "" && forall k :: 0 <= k < |last| ==> last[k] != '/'
    ensures Components(last) == [last]
  {
    NameLenIs(last, |last|);
    assert last[..|last|] == last && last[|last|..] == "";
    assert Components(last) == [last] + Components("");
  }

  lemma ComponentsOfSplit(path: string)
    requires Split(path).Some?
    ensures Components(path) == Components(Split(path).value.0) + [Split(path).value.1]
  {
    var (parent, last) := Split(path).value;
    var c := LastSlash(path);
    ComponentsOfName(last);
    assert path == path[..c] + "/" + last;
    ComponentsSplit(path[..c], last);
    if c == 0 {
      assert path[..c] == "";
      assert Components("/") == Components("/"[1..]) == [];
    }
  }

  /** Resolving a path that splits is resolving its parent and entering it. */
  lemma ResolveSplit(w: World, t: seq<Mount>, root: Inode, path: string)
    requires Split(path).Some?
    ensures Accepted(Split(path).value.0)
    ensures Resolved(w, t, root, path) ==
      match Resolved(w, t, root, Split(path).value.0) case None => None case Some(x) => Enter(w, t, x, Split(path).value.1)
  {
    var (parent, last) := Split(path).value;
    ComponentsOfSplit(path);
    WalkAppend(w, t, Settle(t, root, |t|), Components(parent), [last]);
    forall x: Inode
      ensures Walk(w, t, x, [last]) == Enter(w, t, x, last)
    {
    }
  }

  /** What making the last name of a path yields: the file system of the directory it
      would be looked up in is asked. */
  function Created(w: World, t: seq<Mount>, root: Inode, path: string, asDir: bool): Option<Inode> {
    match Split(path)
    case None => None
    case Some((parent, last)) =>
      match Resolved(w, t, root, parent)
      case None => None
      case Some(d) => if !w.isDir(d) || !w.hasCreate(d) then None else w.create(d, last, asDir)
  }

  /** The world once `x` has been made under `last` in `d`, as what was asked for. */
  function WithMade(w: World, d: Inode, last: string, x: Inode, asDir: bool): World {
    w.(lookup := (c: Inode, n: string) => if c == d && n == last then Some(x) else w.lookup(c, n),
       isDir := (c: Inode) => if c == x then asDir else w.isDir(c))
  }

  lemma MadeIs(w: World, d: Inode, last: string, x: Inode, asDir: bool)
    ensures WithMade(w, d, last, x, asDir).isDir(x) == asDir
  {
  }

  /** What was made is found under its path, if the way to its directory is as before, the
      directory is not what was made and can be looked into. */
  lemma MadeIsFound(w: World, t: seq<Mount>, root: Inode, path: string, d: Inode, x: Inode, asDir: bool)
    requires Split(path).Some? && w.isDir(d) && w.hasLookup(d) && d != x
    requires Resolved(WithMade(w, d, Split(path).value.1, x, asDir), t, root, Split(path).value.0) == Some(d)
    ensures Resolved(WithMade(w, d, Split(path).value.1, x, asDir), t, root, path) == Some(Settle(t, x, |t|))
  {
    ResolveSplit(WithMade(w, d, Split(path).value.1, x, asDir), t, root, path);
  }

  // ---- mounts and walks ------------------------------------------------------------

  /** The walk comes through `p` before its end. */
  predicate Through(w: World, t: seq<Mount>, cur: Inode, names: seq<string>, p: Inode)
    decreases |names|
  {
    names != [] && (cur == p || match Enter(w, t, cur, names[0])
                                case None => false
                                case Some(x) => Through(w, t, x, names[1..], p))
  }

  /** After a mount, a path that led to the covered inode leads to what the new root
      settles at; a path that does not come through it leads where it led. */
  lemma {:induction false} WalkMounted(w: World, t: seq<Mount>, i: nat, p: Inode, r: Inode, cur: Inode, names: seq<string>)
    requires i < |t| && t[i].point == 0 && Follow(t, p) == None && Acyclic(t) && Settle(t, r, |t|) != p
    requires !Through(w, t, cur, names, p)
    ensures var x, x' := Walk(w, t, cur, names), Walk(w, Mounted(t, i, p, r), if cur == p then Settle(t, r, |t|) else cur, names);
      x' == if x == Some(p) then Some(Settle(t, r, |t|)) else x
    decreases |names|
  {
    if names != [] {
      match Find(w, cur, names[0])
      case None =>
      case Some(y) =>
        SettleMounted(t, i, p, r, y);
        WalkMounted(w, t, i, p, r, Settle(t, y, |t|), names[1..]);
    }
  }

  /** The same for whole paths: after mounting an uncovered `r` over the inode a path
      leads to, the path leads to `r`; a path that avoids the inode is unaffected. */
  lemma ResolveMounted(w: World, t: seq<Mount>, root: Inode, i: nat, p: Inode, r: Inode, path: string)
    requires i < |t| && t[i].point == 0 && Follow(t, p) == None && Acyclic(t) && Follow(t, r) == None && r != p
    requires Accepted(path) && !Through(w, t, Settle(t, root, |t|), Components(path), p)
    ensures var x, x' := Resolved(w, t, root, path), Resolved(w, Mounted(t, i, p, r), root, path);
      x' == if x == Some(p) then Some(r) else x
  {
    SettleMounted(t, i, p, r, root);
    WalkMounted(w, t, i, p, r, Settle(t, root, |t|), Components(path));
  }

  function FreeSlot(t: seq<Mount>): (i: nat)
    ensures i <= |t| && (i < |t| ==> t[i].point == 0) && forall k :: 0 <= k < i ==> t[k].point != 0
  {
    if t == [] || t[0].point == 0 then 0 else 1 + FreeSlot(t[1..])
  }

  /** vfs_mount succeeds when there is a directory to mount, a directory to cover, not
      the same, and a slot left. */
  predicate CanMount(w: World, t: seq<Mount>, root: Inode, path: string, r: int) {
    r > 0 && w.isDir(r) && FreeSlot(t) < |t|
    && match Resolved(w, t, root, path)
       case None => false
       case Some(p) => w.isDir(p) && p != r
  }

  /** Where a walk without cycles arrives, nothing is mounted. */
  lemma {:induction false} WalkEndsUncovered(w: World, t: seq<Mount>, cur: Inode, names: seq<string>)
    requires Acyclic(t) && Follow(t, cur) == None && Walk(w, t, cur, names).Some?
    ensures Follow(t, Walk(w, t, cur, names).value) == None
    decreases |names|
  {
    if names != [] {
      SettleEnds(t, Find(w, cur, names[0]).value);
      WalkEndsUncovered(w, t, Enter(w, t, cur, names[0]).value, names[1..]);
    }
  }

  // ---- the kernel's tables ---------------------------------------------------------

  class Namespace {
    var root: Inode
    const points: array<Mount>
    const world: World

    ghost predicate Valid()
      reads this, points
    {
      points.Length == MAX_MOUNTS && forall i :: 0 <= i < MAX_MOUNTS ==> points[i].point >= 0
    }

    function Table(): seq<Mount>
      reads this, points
    {
      points[..]
    }

    /** vfs_init: everything hangs from `r`, nothing is mounted. */
    constructor (r: Inode, w: World)
      ensures Valid() && fresh(points) && root == r && world == w
      ensures Acyclic(Table()) && forall a :: Follow(Table(), a) == None
    {
      root := r;
      world := w;
      points := new Mount[MAX_MOUNTS](i => Mount(0, r));
      new;
      forall a: Inode
        ensures Follow(points[..], a) == None
      {
        NothingFollows(points[..], a);
      }
    }

    /** The slot whose point is `a`, if any. */
    method FindPoint(a: Inode) returns (found: Option<Inode>)
      requires Valid()
      ensures found == Follow(Table(), a)
    {
      ghost var t := Table();
      for i := 0 to MAX_MOUNTS
        invariant Follow(t, a) == Follow(t[i..], a)
      {
        if points[i].point != 0 && points[i].point == a {
          return Some(points[i].root);
        }
        assert t[i..][1..] == t[i + 1..];
      }
      return None;
    }

    /** risolvi_mount: at most MAX_MOUNTS rounds along the chain. */
    method FollowMounts(a: Inode) returns (r: Inode)
      requires Valid()
      ensures r == Settle(Table(), a, MAX_MOUNTS)
    {
      r := a;
      for round := 0 to MAX_MOUNTS
        invariant Settle(Table(), a, MAX_MOUNTS) == Settle(Table(), r, MAX_MOUNTS - round)
      {
        var found := FindPoint(r);
        if found == None {
          break;
        }
        r := found.value;
      }
    }

    /** vfs_resolve: the loop is the fold, and `out` is written only on success. */
    method Resolve(path: string, out0: Inode) returns (r: int, out: Inode)
      requires Valid()
      ensures match Resolved(world, Table(), root, path)
        case Some(x) => r == 0 && out == x
        case None => r == -1 && out == out0
    {
      hide Settle, Follow, Components, NameLen;
      out := out0;
      var current := FollowMounts(root);
      if path == "" || path[0] != '/' || |path| >= VFS_PATH_MAX {
        return -1, out;
      }
      ghost var t := Table();
      ghost var goal := Walk(world, t, current, Components(path));
      var p := 1;
      SkipSlash(path, 0);
      assert path[0..] == path;
      while true
        invariant 0 <= p <= |path| && Walk(world, t, current, Components(path[p..])) == goal
        decreases |path| - p
      {
        while p < |path| && path[p] == '/'
          invariant p <= |path| && Walk(world, t, current, Components(path[p..])) == goal
        {
          SkipSlash(path, p);
          p := p + 1;
        }
        if p == |path| {
          AtEnd(path);
          break;
        }
        var len := 0;
        while p + len < |path| && path[p + len] != '/'
          invariant p + len <= |path| && forall k :: p <= k < p + len ==> path[k] != '/'
        {
          len := len + 1;
        }
        WalkTurn(world, t, current, path, p, len);
        if len > VFS_NAME_MAX {
          return -1, out;
        }
        var name := path[p..p + len];
        if !world.isDir(current) {
          return -1, out;
        }
        if !world.hasLookup(current) {
          return -1, out;
        }
        var next := world.lookup(current, name);
        if next == None {
          return -1, out;
        }
        current := FollowMounts(next.value);
        p := p + len;
      }
      return 0, current;
    }

    /** spezza_path. */
    static method SplitPath(path: string) returns (r: int, parent: string, last: string)
      ensures match Split(path)
        case Some((g, u)) => r == 0 && parent == g && last == u
        case None => r == -1
    {
      if path == "" || path[0] != '/' || |path| >= VFS_PATH_MAX {
        return -1, "", "";
      }
      var cut := 0;
      for i := 0 to |path|
        invariant 0 <= cut < |path| && path[cut] == '/' && (cut < i || cut == 0)
        invariant forall k :: cut < k < i ==> path[k] != '/'
      {
        if path[i] == '/' {
          cut := i;
        }
      }
      assert cut == LastSlash(path);
      if |path| - cut - 1 == 0 || |path| - cut - 1 > VFS_NAME_MAX {
        return -1, "", "";
      }
      last := path[cut + 1..];
      if cut == 0 {
        return 0, "/", last;
      }
      return 0, path[..cut], last;
    }

    /** crea_ultimo. */
    method CreateLast(path: string, asDir: bool, out0: Inode) returns (r: int, out: Inode)
      requires Valid()
      ensures match Created(world, Table(), root, path, asDir)
        case Some(x) => r == 0 && out == x
        case None => r == -1 && out == out0
      ensures r == 0 <==> Split(path).Some? && match Resolved(world, Table(), root, Split(path).value.0)
        case Some(d) => world.isDir(d) && world.hasCreate(d) && world.create(d, Split(path).value.1, asDir).Some?
        case None => false
      ensures r == 0 ==>
        var (parent, last) := Split(path).value;
        var d := Resolved(world, Table(), root, parent).value;
        && world.create(d, last, asDir) == Some(out)
        && var w := WithMade(world, d, last, out, asDir);
           && w.isDir(out) == asDir
           && (d != out && world.hasLookup(d) && Resolved(w, Table(), root, parent) == Some(d) ==>
                 Resolved(w, Table(), root, path) == Some(Settle(Table(), out, |Table()|)))
    {
      hide Settle, Follow, Walk, Components, WithMade;
      out := out0;
      var r', parent, last := SplitPath(path);
      if r' < 0 {
        return -1, out;
      }
      var dir;
      r', dir := Resolve(parent, out0);
      if r' < 0 {
        return -1, out;
      }
      if !world.isDir(dir) {
        return -1, out;
      }
      if !world.hasCreate(dir) {
        return -1, out;
      }
      var made := world.create(dir, last, asDir);
      if made == None {
        return -1, out;
      }
      out := made.value;
      MadeIs(world, dir, last, out, asDir);
      if dir != out && world.hasLookup(dir) && Resolved(WithMade(world, dir, last, out, asDir), Table(), root, parent) == Some(dir) {
        MadeIsFound(world, Table(), root, path, dir, out, asDir);
      }
      return 0, out;
    }

    /** vfs_mount: the point is what the path resolves to, the slot is the first free
        one, and nothing is written unless all checks pass. */
    method MountAt(path: string, r: int) returns (res: int)
      requires Valid()
      modifies points
      ensures Valid()
      ensures res == 0 <==> CanMount(world, old(Table()), root, path, r)
      ensures res == 0 <==> (
        && r > 0 && world.isDir(r) && (exists i :: 0 <= i < 4 && old(points[i]).point == 0)
        && Resolved(world, old(Table()), root, path).Some?
        && world.isDir(Resolved(world, old(Table()), root, path).value)
        && Resolved(world, old(Table()), root, path).value != r)
      ensures res == 0 ==> old(Table())[FreeSlot(old(Table()))].point == 0
      ensures Table() == if res == 0
        then Mounted(old(Table()), FreeSlot(old(Table())), Resolved(world, old(Table()), root, path).value, r)
        else old(Table())
      ensures res == 0 || res == -1
    {
      if r <= 0 {
        return -1;
      }
      if !world.isDir(r) {
        return -1;
      }
      var e, point := Resolve(path, r);
      if e < 0 {
        return -1;
      }
      if !world.isDir(point) {
        return -1;
      }
      if point == r {
        return -1;
      }
      var slot := 0;
      while slot < MAX_MOUNTS && points[slot].point != 0
        invariant slot <= FreeSlot(Table())
      {
        slot := slot + 1;
      }
      if slot == MAX_MOUNTS {
        return -1;
      }
      points[slot] := Mount(point, r);
      return 0;
    }
  }

  lemma {:induction false} NothingFollows(t: seq<Mount>, a: Inode)
    requires forall i :: 0 <= i < |t| ==> t[i].point == 0
    ensures Follow(t, a) == None
    decreases |t|
  {
    if t != [] {
      NothingFollows(t[1..], a);
    }
  }

  /** A mount that succeeds covers an inode that was uncovered, and keeps the table free
      of cycles exactly if the chain of the new root does not lead to that inode. */
  lemma MountKeepsTable(w: World, t: seq<Mount>, root: Inode, path: string, r: Inode)
    requires Acyclic(t) && CanMount(w, t, root, path, r)
    ensures var p := Resolved(w, t, root, path).value;
      && Follow(t, p) == None
      && (Acyclic(Mounted(t, FreeSlot(t), p, r)) <==> Settle(t, r, |t|) != p)
  {
    SettleEnds(t, root);
    WalkEndsUncovered(w, t, Settle(t, root, |t|), Components(path));
    MountKeepsAcyclic(t, FreeSlot(t), Resolved(w, t, root, path).value, r);
  }

  /** No inode is covered twice. */
  ghost predicate KeysDistinct(t: seq<Mount>) {
    forall i, j :: 0 <= i < j < |t| && t[i].point != 0 ==> t[i].point != t[j].point
  }

  /** One call of vfs_mount. */
  datatype Call = Call(path: string, root: int)

  /** The table after a call: a mount if it can be done, otherwise as before. */
  function AfterCall(w: World, t: seq<Mount>, root: Inode, c: Call): seq<Mount> {
    if CanMount(w, t, root, c.path, c.root)
    then Mounted(t, FreeSlot(t), Resolved(w, t, root, c.path).value, c.root)
    else t
  }

  /** The check vfs_mount does not make: the chain of what is mounted must not lead to
      what it covers. */
  predicate NoLoop(w: World, t: seq<Mount>, root: Inode, c: Call) {
    CanMount(w, t, root, c.path, c.root) ==> Settle(t, c.root, |t|) != Resolved(w, t, root, c.path).value
  }

  ghost predicate Run(w: World, root: Inode, ts: seq<seq<Mount>>, cs: seq<Call>) {
    |ts| == |cs| + 1 && forall k {:trigger cs[k]} :: 0 <= k < |cs| ==> ts[k + 1] == AfterCall(w, ts[k], root, cs[k])
  }

  lemma CallKeepsTable(w: World, t: seq<Mount>, root: Inode, c: Call)
    requires Acyclic(t) && KeysDistinct(t)
    ensures Acyclic(AfterCall(w, t, root, c)) <==> NoLoop(w, t, root, c)
    ensures KeysDistinct(AfterCall(w, t, root, c))
  {
    hide Acyclic;
    if CanMount(w, t, root, c.path, c.root) {
      MountKeepsTable(w, t, root, c.path, c.root);
      UncoveredIsNoKey(t, Resolved(w, t, root, c.path).value);
    }
  }

  lemma {:induction false} UncoveredIsNoKey(t: seq<Mount>, p: Inode)
    requires Follow(t, p) == None
    ensures forall i :: 0 <= i < |t| ==> t[i].point != p
    decreases |t|
  {
    if t != [] {
      UncoveredIsNoKey(t[1..], p);
      assert forall i :: 1 <= i < |t| ==> t[i] == t[1..][i - 1];
    }
  }

  /** Over whole runs of mounts, refused ones included, from a table without cycles: no
      inode is ever covered twice as long as no cycle has been made, and no cycle has
      been made at any point exactly if every call passed the missing check. */
  lemma {:induction false} RunKeepsTable(w: World, root: Inode, ts: seq<seq<Mount>>, cs: seq<Call>)
    requires Run(w, root, ts, cs) && Acyclic(ts[0]) && KeysDistinct(ts[0])
    ensures (forall k :: 0 <= k < |ts| ==> Acyclic(ts[k])) <==>
      (forall k {:trigger cs[k]} :: 0 <= k < |cs| ==> NoLoop(w, ts[k], root, cs[k]))
    ensures (forall k :: 0 <= k < |ts| ==> Acyclic(ts[k])) ==> forall k :: 0 <= k < |ts| ==> KeysDistinct(ts[k])
    decreases |cs|
  {
    hide Acyclic, KeysDistinct, NoLoop, AfterCall;
    if cs != [] {
      var last := |cs| - 1;
      var ts0, cs0 := ts[..|cs|], cs[..last];
      assert forall k {:trigger cs[k]} :: 0 <= k < last ==> cs0[k] == cs[k] && ts0[k] == ts[k] && ts0[k + 1] == ts[k + 1];
      RunKeepsTable(w, root, ts0, cs0);
      assert ts[last + 1] == AfterCall(w, ts[last], root, cs[last]);
      assert forall k :: 0 <= k < |ts0| ==> ts0[k] == ts[k];
      assert (forall k :: 0 <= k < |ts| ==> Acyclic(ts[k])) <==>
        (forall k :: 0 <= k < |ts0| ==> Acyclic(ts0[k])) && Acyclic(ts[|cs|]);
      if Acyclic(ts[last]) && KeysDistinct(ts[last]) {
        CallKeepsTable(w, ts[last], root, cs[last]);
      }
    }
  }

  /** A small world: root 3, in it directory 1 called "a". */
  function SmallWorld(): World {
    World(x => true, x => true, (d, name) => if d == 3 && name == "a" then Some(1) else None, x => false, (d, name, dir) => None)
  }

  /** The check of vfs_mount lets a cycle of length two through: mount inode 2 at /a,
      which is 1, then 1 at the same path, which is now 2. Both mounts are accepted, and
      then 1 covers 2 and 2 covers 1. */
  lemma TwoMountsMakeACycle()
    ensures var w, free := SmallWorld(), Mount(0, 3);
      var t0 := [free, free, free, free];
      var t1, t2 := AfterCall(w, t0, 3, Call("/a", 2)), AfterCall(w, AfterCall(w, t0, 3, Call("/a", 2)), 3, Call("/a", 1));
      && |t0| == MAX_MOUNTS && Acyclic(t0)
      && CanMount(w, t0, 3, "/a", 2) && Acyclic(t1)
      && CanMount(w, t1, 3, "/a", 1) && !Acyclic(t2)
      && Follow(t2, 1) == Some(2) && Follow(t2, 2) == Some(1)
  {
    var w, free := SmallWorld(), Mount(0, 3);
    var t0, t1, t2 := [free, free, free, free], [Mount(1, 2), free, free, free], [Mount(1, 2), Mount(2, 1), free, free];
    forall a: Inode
      ensures Follow(t0, a) == None
    {
      NothingFollows(t0, a);
    }
    assert Acyclic(t0) by {
      forall a: Inode, k: nat | k > 0
        ensures Steps(t0, a, k) != Some(a)
      {
        assert Follow(t0, a) == None;
      }
    }
    forall a: Inode
      ensures Follow(t1, a) == if a == 1 then Some(2) else None
    {
      assert t1[1..] == [free, free, free];
      NothingFollows(t1[1..], a);
    }
    SmallWalk(t0);
    SmallWalk(t1);
    assert Settle(t0, 1, 4) == 1 && Settle(t0, 3, 4) == 3 && Settle(t0, 2, 4) == 2;
    assert AfterCall(w, t0, 3, Call("/a", 2)) == t1 by {
      assert FreeSlot(t0) == 0;
    }
    MountKeepsTable(w, t0, 3, "/a", 2);
    assert Settle(t1, 2, 3) == 2 && Settle(t1, 1, 4) == 2 && Settle(t1, 3, 4) == 3;
    assert AfterCall(w, t1, 3, Call("/a", 1)) == t2 by {
      assert t1[1..] == [free, free, free] && FreeSlot(t1[1..]) == 0 && FreeSlot(t1) == 1;
    }
    MountKeepsTable(w, t1, 3, "/a", 1);
    assert t2[1..] == [Mount(2, 1), free, free];
  }

  /** In the small world the path /a leads to whatever settles on inode 1. */
  lemma SmallWalk(t: seq<Mount>)
    requires Settle(t, 3, |t|) == 3
    ensures Resolved(SmallWorld(), t, 3, "/a") == Some(Settle(t, 1, |t|))
  {
    var w := SmallWorld();
    ComponentsOfName("a");
    assert "/a"[1..] == "a";
    assert Components("/a") == ["a"];
    assert Enter(w, t, 3, "a") == Some(Settle(t, 1, |t|));
    assert ["a"][1..] == [];
  }
}
