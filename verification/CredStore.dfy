/** Installing a credential store beside the live one. */
module CredStore {
  // The new store is sealed beside the live one and swapped in (`seal_into_store`), and an install is
  // skipped when the recorded fingerprint says nothing changed. Every call into the file system and every
  // sealing may fail; the parameter `World` says which do. The hash is a parameter too.

  import opened Text
  import Orders

  /** A directory of sealed credentials, and the fingerprint file in it. */
  datatype Tree = Tree(files: map<string, string>, fingerprint: Option<string>)

  const EMPTY_TREE := Tree(map[], None)

  /** The three directories of one service. */
  datatype Dirs = Dirs(live: Option<Tree>, staging: Option<Tree>, retired: Option<Tree>)

  /** What removing a directory comes to: all of it goes, or some of it stays. */
  datatype Removal = Gone | Stays(names: set<string>, keepsFingerprint: bool)

  function Removed(t: Option<Tree>, r: Removal): Option<Tree> {
    match (t, r)
    case (None, _) => None
    case (_, Gone) => None
    case (Some(tree), Stays(names, keepsFingerprint)) =>
      Some(Tree(map k | k in tree.files && k in names :: tree.files[k],
                if keepsFingerprint then tree.fingerprint else None))
  }

  /** Which of the calls of one install fail, and how. */
  datatype World = World(
    liveDirFails: bool, clearStaging: Removal, stagingDirFails: bool,
    sealFailsAt: nat, halfSealed: Option<string>, exchanges: bool, clearOld: Removal,
    clearRetired: Removal, retireFails: bool, installFails: bool, restoreFails: bool,
    dropStaging: Removal, dropRetired: Removal, recordFails: bool)

  datatype Outcome = Installed | Skipped | Failed

  type Hash = string -> string

  type Env = map<string, string>

  function ValueOf(env: Env, key: string): string { if key in env then env[key] else "" }

  // The fingerprint.

  /** `key=value` lines, as they go into the hash. */
  function ValueLines(keys: seq<string>, env: Env): string {
    if keys == [] then "" else keys[0] + "=" + ValueOf(env, keys[0]) + "\n" + ValueLines(keys[1..], env)
  }

  function NameLines(names: seq<string>): string {
    if names == [] then "" else names[0] + "\n" + NameLines(names[1..])
  }

  /** The values, the host key, and the names in order. */
  function Hashed(keys: seq<string>, env: Env, hostKey: string): string {
    ValueLines(keys, env) + hostKey + NameLines(Orders.Sort(StrLe, keys))
  }

  function Fingerprint(hash: Hash, keys: seq<string>, env: Env, hostKey: string): string {
    hash(Hashed(keys, env, hostKey))
  }

  /** The text that is hashed, built as it goes into the hasher. */
  method SealFingerprint(hash: Hash, keys: seq<string>, env: Env, hostKey: string) returns (fingerprint: string)
    ensures fingerprint == Fingerprint(hash, keys, env, hostKey)
  {
    var text := "";
    assert keys[0..] == keys;
    for k := 0 to |keys|
      invariant text + ValueLines(keys[k..], env) == ValueLines(keys, env)
    {
      assert keys[k..][0] == keys[k] && keys[k..][1..] == keys[k + 1..];
      var line := keys[k] + "=" + ValueOf(env, keys[k]) + "\n";
      Assoc(text, line, ValueLines(keys[k + 1..], env));
      text := text + line;
    }
    assert keys[|keys|..] == [] && text + "" == text;
    text := text + hostKey;
    var names := Orders.Sort(StrLe, keys);
    ghost var before := text;
    assert names[0..] == names;
    for k := 0 to |names|
      invariant text + NameLines(names[k..]) == before + NameLines(names)
    {
      assert names[k..][0] == names[k] && names[k..][1..] == names[k + 1..];
      Assoc(text, names[k] + "\n", NameLines(names[k + 1..]));
      text := text + (names[k] + "\n");
    }
    assert names[|names|..] == [];
    assert text + "" == text;
    return hash(text);
  }

  function Pair(env: Env, key: string): string { key + "=" + (if key in env then env[key] else "") + "\n" }

  lemma {:induction false} PairLines(keys: seq<string>, env: Env)
    ensures ValueLines(keys, env) == Concat(seq(|keys|, k requires 0 <= k < |keys| => Pair(env, keys[k])))
  {
    if keys != [] {
      var pairs := seq(|keys|, k requires 0 <= k < |keys| => Pair(env, keys[k]));
      var more := keys[1..];
      PairLines(more, env);
      assert pairs[1..] == seq(|more|, k requires 0 <= k < |more| => Pair(env, more[k]));
    }
  }

  lemma {:induction false} NamesAre(names: seq<string>)
    ensures NameLines(names) == Concat(seq(|names|, k requires 0 <= k < |names| => names[k] + "\n"))
  {
    if names != [] {
      var lines, more := seq(|names|, k requires 0 <= k < |names| => names[k] + "\n"), names[1..];
      NamesAre(more);
      assert lines[1..] == seq(|more|, k requires 0 <= k < |more| => more[k] + "\n");
    }
  }

  /**
   The text that is hashed: a line per key in the order given, a variable that is not set counting as empty,
   the host key, and a line per name in byte order.
   */
  lemma HashedText(keys: seq<string>, env: Env, hostKey: string, names: seq<string>)
    requires multiset(names) == multiset(keys) && Orders.Sorted(StrLe, names)
    ensures Hashed(keys, env, hostKey)
         == Concat(seq(|keys|, k requires 0 <= k < |keys| => Pair(env, keys[k]))) + hostKey
            + Concat(seq(|names|, k requires 0 <= k < |names| => names[k] + "\n"))
  {
    Orders.StrOrder();
    Orders.SortSorted(StrLe, keys);
    Orders.SortElements(StrLe, keys);
    Orders.SortedByElements(StrLe, names, Orders.Sort(StrLe, keys));
    PairLines(keys, env);
    NamesAre(names);
  }

  /** The credentials a complete store holds. */
  function Wanted(keys: seq<string>, env: Env): map<string, string> {
    map k | k in keys :: ValueOf(env, k)
  }

  /** The recorded fingerprint matches, and the file names are exactly the keys. */
  ghost predicate IsCurrent(tree: Tree, keys: seq<string>, fingerprint: string) {
    tree.fingerprint == Some(fingerprint) && Distinct(keys) && tree.files.Keys == set k | k in keys
  }

  /** A fingerprint describes the tree it sits in: it is the hash of the values sealed there. */
  ghost predicate Described(hash: Hash, tree: Tree) {
    tree.fingerprint.None? || exists keys, env, hostKey :: DescribedBy(hash, tree, keys, env, hostKey)
  }

  ghost predicate DescribedFor(hash: Hash, tree: Tree, keys: seq<string>) {
    tree.fingerprint.None? || exists env, hostKey :: DescribedBy(hash, tree, keys, env, hostKey)
  }

  ghost predicate DescribedBy(hash: Hash, tree: Tree, keys: seq<string>, env: Env, hostKey: string) {
    && tree.fingerprint == Some(Fingerprint(hash, keys, env, hostKey)) && tree.files == Wanted(keys, env)
    && Distinct(keys) && PlainKeys(keys) && PlainValues(keys, env)
  }

  /** A key is a shell identifier: no `=` and no line break in it. */
  ghost predicate PlainKeys(keys: seq<string>) { forall k :: k in keys ==> '=' !in k && '\n' !in k }

  ghost predicate PlainValues(keys: seq<string>, env: Env) { forall k :: k in keys ==> '\n' !in ValueOf(env, k) }

  ghost predicate Injective(hash: Hash) { forall a, b :: hash(a) == hash(b) ==> a == b }

  /** Two texts that begin with a line each begin with the same line. */
  lemma FirstLineSame(a: string, restA: string, b: string, restB: string)
    requires '\n' !in a && '\n' !in b && a + "\n" + restA == b + "\n" + restB
    ensures a == b && restA == restB
  {
    var x, y := a + "\n" + restA, b + "\n" + restB;
    assert forall i :: 0 <= i < |a| ==> x[i] == a[i] && a[i] in a;
    assert forall i :: 0 <= i < |b| ==> y[i] == b[i] && b[i] in b;
    assert x[|a|] == '\n' && y[|b|] == '\n';
    assert |a| == |b|;
    assert a == x[..|a|] && b == y[..|b|];
    assert restA == x[|a| + 1..] && restB == y[|b| + 1..];
  }

  /** A line splits at its first `=`. */
  lemma PairSame(keyA: string, valueA: string, keyB: string, valueB: string)
    requires '=' !in keyA && '=' !in keyB && keyA + "=" + valueA == keyB + "=" + valueB
    ensures keyA == keyB && valueA == valueB
  {
    var x, y := keyA + "=" + valueA, keyB + "=" + valueB;
    assert forall i :: 0 <= i < |keyA| ==> x[i] == keyA[i] && keyA[i] in keyA;
    assert forall i :: 0 <= i < |keyB| ==> y[i] == keyB[i] && keyB[i] in keyB;
    assert x[|keyA|] == '=' && y[|keyB|] == '=';
    assert |keyA| == |keyB|;
    assert keyA == x[..|keyA|] && keyB == y[..|keyB|];
    assert valueA == x[|keyA| + 1..] && valueB == y[|keyB| + 1..];
  }

  /** The hashed text can be read back: as many lines, so the same keys with the same values, and the same rest. */
  lemma {:induction false} LinesDetermine(a: seq<string>, envA: Env, restA: string, b: seq<string>, envB: Env,
                                          restB: string)
    requires |a| == |b| && PlainKeys(a) && PlainKeys(b) && PlainValues(a, envA) && PlainValues(b, envB)
    requires ValueLines(a, envA) + restA == ValueLines(b, envB) + restB
    ensures a == b && (forall k :: k in a ==> ValueOf(envA, k) == ValueOf(envB, k)) && restA == restB
    decreases |a|
  {
    if a == [] {
      assert "" + restA == restA && "" + restB == restB;
    } else {
      var lineA, lineB := a[0] + "=" + ValueOf(envA, a[0]), b[0] + "=" + ValueOf(envB, b[0]);
      var moreA, moreB := ValueLines(a[1..], envA) + restA, ValueLines(b[1..], envB) + restB;
      Assoc(lineA + "\n", ValueLines(a[1..], envA), restA);
      Assoc(lineB + "\n", ValueLines(b[1..], envB), restB);
      FirstLineSame(lineA, moreA, lineB, moreB);
      PairSame(a[0], ValueOf(envA, a[0]), b[0], ValueOf(envB, b[0]));
      LinesDetermine(a[1..], envA, restA, b[1..], envB, restB);
      assert a == [a[0]] + a[1..] && b == [b[0]] + b[1..];
    }
  }

  lemma {:induction false} DistinctSize(s: seq<string>)
    requires Distinct(s)
    ensures |set k | k in s| == |s|
  {
    if s != [] {
      var init, last := s[..|s| - 1], s[|s| - 1];
      DistinctSize(init);
      assert (set k | k in s) == (set k | k in init) + {last};
    }
  }

  /**
   A skipped install is sound: the store was sealed from the same keys and values, with the same host key, so
   that sealing again would put the same there.
   */
  lemma CurrentIsSound(hash: Hash, tree: Tree, keys: seq<string>, env: Env, hostKey: string)
    requires Injective(hash) && Described(hash, tree) && PlainKeys(keys) && PlainValues(keys, env)
    requires IsCurrent(tree, keys, Fingerprint(hash, keys, env, hostKey))
    ensures tree.files == Wanted(keys, env)
    ensures forall keysWas, envWas, hostWas :: DescribedBy(hash, tree, keysWas, envWas, hostWas) ==>
              keysWas == keys && hostWas == hostKey
  {
    DistinctSize(keys);
    forall keysWas, envWas, hostWas | DescribedBy(hash, tree, keysWas, envWas, hostWas)
      ensures keysWas == keys && hostWas == hostKey && tree.files == Wanted(keys, env)
    {
      assert (set k | k in keysWas) == tree.files.Keys == set k | k in keys;
      DistinctSize(keysWas);
      SameTextSameFiles(keysWas, envWas, hostWas, keys, env, hostKey);
    }
  }

  lemma SameTextSameFiles(a: seq<string>, envA: Env, hostA: string, b: seq<string>, envB: Env, hostB: string)
    requires |a| == |b| && PlainKeys(a) && PlainKeys(b) && PlainValues(a, envA) && PlainValues(b, envB)
    requires Hashed(a, envA, hostA) == Hashed(b, envB, hostB)
    ensures Wanted(a, envA) == Wanted(b, envB) && a == b && hostA == hostB
  {
    var namesA, namesB := NameLines(Orders.Sort(StrLe, a)), NameLines(Orders.Sort(StrLe, b));
    Assoc(ValueLines(a, envA), hostA, namesA);
    Assoc(ValueLines(b, envB), hostB, namesB);
    LinesDetermine(a, envA, hostA + namesA, b, envB, hostB + namesB);
    SameFront(hostA, hostB, namesA);
  }

  lemma SameFront(x: string, y: string, tail: string)
    requires x + tail == y + tail
    ensures x == y
  {
    assert |x| == |y|;
    assert x == (x + tail)[..|x|] && y == (y + tail)[..|y|];
  }

  // Values with line breaks.

  /** Different values that hash alike. */
  ghost predicate Collide(keys: seq<string>, hostKey: string, was: Env, next: Env) {
    Wanted(keys, was) != Wanted(keys, next) && Hashed(keys, was, hostKey) == Hashed(keys, next, hostKey)
  }

  /** The key `b` gets `valueB`, `a` gets `valueA`, and any other key something. */
  function Values(keys: seq<string>, a: string, valueA: string, b: string, valueB: string): Env {
    map k | k in keys :: if k == a then valueA else if k == b then valueB else "x"
  }

  lemma {:induction false} LinesSame(keys: seq<string>, was: Env, next: Env)
    requires forall k :: k in keys ==> ValueOf(was, k) == ValueOf(next, k)
    ensures ValueLines(keys, was) == ValueLines(keys, next)
  {
    if keys != [] {
      LinesSame(keys[1..], was, next);
    }
  }

  /** Two keys are enough: a line break lets the line of the second move from one value to the other. */
  lemma LineBreakCollides(keys: seq<string>, hostKey: string) returns (was: Env, next: Env)
    requires Distinct(keys) && 2 <= |keys|
    ensures Collide(keys, hostKey, was, next) && forall k :: k in keys ==> Sealable(was, k) && Sealable(next, k)
  {
    var a, b := keys[0], keys[1];
    was := Values(keys, a, "1\n" + b + "=2", b, "3");
    next := Values(keys, a, "1", b, "2\n" + b + "=3");
    MovedLine(keys, was, next);
    DiffersAt(keys, was, next, b);
  }

  lemma DiffersAt(keys: seq<string>, was: Env, next: Env, k: string)
    requires k in keys && |ValueOf(was, k)| != |ValueOf(next, k)|
    ensures Wanted(keys, was) != Wanted(keys, next)
  {
    assert Wanted(keys, was)[k] == ValueOf(was, k) && Wanted(keys, next)[k] == ValueOf(next, k);
  }

  lemma MovedLine(keys: seq<string>, was: Env, next: Env)
    requires 2 <= |keys|
    requires var a, b := keys[0], keys[1];
             && ValueOf(was, a) == "1\n" + b + "=2" && ValueOf(was, b) == "3"
             && ValueOf(next, a) == "1" && ValueOf(next, b) == "2\n" + b + "=3"
    requires forall k :: k in keys[2..] ==> ValueOf(was, k) == ValueOf(next, k)
    ensures ValueLines(keys, was) == ValueLines(keys, next)
  {
    var a, b, rest := keys[0], keys[1], keys[2..];
    assert keys == [a, b] + rest;
    TwoLines(a, b, rest, was);
    TwoLines(a, b, rest, next);
    LinesSame(rest, was, next);
    Spelled(a, b);
  }

  lemma OneKeyTells(key: string, was: Env, next: Env, hostKey: string)
    requires Hashed([key], was, hostKey) == Hashed([key], next, hostKey)
    ensures ValueOf(was, key) == ValueOf(next, key)
  {
    var tail := "\n" + (hostKey + NameLines(Orders.Sort(StrLe, [key])));
    OneLine(key, was, hostKey);
    OneLine(key, next, hostKey);
    MiddleSame(key + "=", ValueOf(was, key), ValueOf(next, key), tail);
  }

  lemma OneLine(key: string, env: Env, hostKey: string)
    ensures Hashed([key], env, hostKey)
         == key + "=" + ValueOf(env, key) + ("\n" + (hostKey + NameLines(Orders.Sort(StrLe, [key]))))
  {
    var line, names := key + "=" + ValueOf(env, key), NameLines(Orders.Sort(StrLe, [key]));
    assert [key][1..] == [];
    assert ValueLines([key], env) == line + "\n" + "" == line + "\n";
    Assoc(line + "\n", hostKey, names);
    Assoc(line, "\n", hostKey + names);
  }

  lemma MiddleSame(head: string, x: string, y: string, tail: string)
    requires head + x + tail == head + y + tail
    ensures x == y
  {
    var a, b := head + x + tail, head + y + tail;
    assert |a| == |b| && |x| == |y|;
    assert x == a[|head|..|head| + |x|] && y == b[|head|..|head| + |y|];
  }

  lemma FewKeysTell(keys: seq<string>, was: Env, next: Env, hostKey: string)
    requires |keys| < 2 && Hashed(keys, was, hostKey) == Hashed(keys, next, hostKey)
    ensures Wanted(keys, was) == Wanted(keys, next)
  {
    if |keys| == 1 {
      assert keys == [keys[0]];
      OneKeyTells(keys[0], was, next, hostKey);
    }
  }

  /** Exactly when values can collide under one host key: when there are two keys or more. */
  lemma CollisionIff(keys: seq<string>, hostKey: string)
    requires Distinct(keys)
    ensures (exists was, next :: Collide(keys, hostKey, was, next)) <==> 2 <= |keys|
  {
    if 2 <= |keys| {
      var was, next := LineBreakCollides(keys, hostKey);
    }
    forall was, next ensures |keys| < 2 ==> !Collide(keys, hostKey, was, next) {
      if |keys| < 2 && Hashed(keys, was, hostKey) == Hashed(keys, next, hostKey) {
        FewKeysTell(keys, was, next, hostKey);
      }
    }
  }

  /** So, under one host key, a skip is sound for values of any kind exactly where there is one key, or none. */
  lemma SkipIsSoundIff(hash: Hash, keys: seq<string>, hostKey: string)
    requires Injective(hash) && Distinct(keys)
    ensures (forall was, next :: SkipSound(hash, keys, hostKey, was, next)) <==> |keys| < 2
  {
    forall was, next ensures SkipSound(hash, keys, hostKey, was, next) <==> !Collide(keys, hostKey, was, next) {
      assert Wanted(keys, was).Keys == set k | k in keys;
    }
    CollisionIff(keys, hostKey);
  }

  /** If the store that holds the values `was` is taken for one that holds `next`, it holds these. */
  ghost predicate SkipSound(hash: Hash, keys: seq<string>, hostKey: string, was: Env, next: Env) {
    var tree := Tree(Wanted(keys, was), Some(Fingerprint(hash, keys, was, hostKey)));
    IsCurrent(tree, keys, Fingerprint(hash, keys, next, hostKey)) ==> tree.files == Wanted(keys, next)
  }

  lemma TwoLines(a: string, b: string, rest: seq<string>, env: Env)
    ensures ValueLines([a, b] + rest, env)
         == a + "=" + ValueOf(env, a) + "\n" + (b + "=" + ValueOf(env, b) + "\n") + ValueLines(rest, env)
  {
    var keys := [a, b] + rest;
    assert keys[1..] == [b] + rest && keys[1..][1..] == rest;
    Assoc(a + "=" + ValueOf(env, a) + "\n", b + "=" + ValueOf(env, b) + "\n", ValueLines(rest, env));
  }

  lemma Spelled(a: string, b: string)
    ensures a + "=" + ("1\n" + b + "=2") + "\n" + (b + "=" + "3" + "\n")
         == a + "=" + "1" + "\n" + (b + "=" + ("2\n" + b + "=3") + "\n")
  {
    var x, y := a + "=" + "1" + "\n", b + "=" + "2" + "\n";
    assert a + "=" + ("1\n" + b + "=2") + "\n" == x + y;
    assert b + "=" + ("2\n" + b + "=3") + "\n" == y + (b + "=" + "3" + "\n");
    Assoc(x, y, b + "=" + "3" + "\n");
  }

  // The swap.

  /** What stays in the staging directory when the install begins to fill it. */
  function Leftover(staging: Option<Tree>, w: World): Tree {
    match Removed(staging, w.clearStaging) case None => EMPTY_TREE case Some(t) => t
  }

  /** The staging tree once every key is sealed into it. */
  function Staged(staging: Option<Tree>, w: World, keys: seq<string>, env: Env): Tree {
    var left := Leftover(staging, w);
    left.(files := left.files + Wanted(keys, env))
  }

  /** The live tree when the install begins: an absent store is created empty. */
  function Before(live: Option<Tree>): Tree { match live case None => EMPTY_TREE case Some(t) => t }

  /**
   At every moment the complete old or the complete new store is in place: live is one of them, or it
   is missing between two renames and the old store is right beside it.
   */
  ghost predicate Safe(d: Dirs, before: Tree, staged: Tree) {
    match d.live
    case Some(t) => t == before || t.files == staged.files
    case None => d.retired == Some(before)
  }

  ghost predicate SafeFrom(trace: seq<Dirs>, n: nat, before: Tree, staged: Tree) {
    forall k :: n <= k < |trace| ==> Safe(trace[k], before, staged)
  }

  lemma SafeOneEarlier(was: seq<Dirs>, now: Dirs, trace: seq<Dirs>, before: Tree, staged: Tree)
    requires |was| < |trace| && trace[..|was| + 1] == was + [now]
    requires Safe(now, before, staged) && SafeFrom(trace, |was| + 1, before, staged)
    ensures SafeFrom(trace, |was|, before, staged)
  {
    assert trace[|was|] == trace[..|was| + 1][|was|] == now;
  }

  /** Two safe stretches, one after the other. */
  lemma SafeThrough(n: nat, mid: seq<Dirs>, trace: seq<Dirs>, before: Tree, staged: Tree)
    requires |mid| <= |trace| && trace[..|mid|] == mid
    requires SafeFrom(mid, n, before, staged) && SafeFrom(trace, |mid|, before, staged)
    ensures SafeFrom(trace, n, before, staged)
  {
    forall k | n <= k < |trace| ensures Safe(trace[k], before, staged) {
      assert k < |mid| ==> trace[k] == trace[..|mid|][k] == mid[k];
    }
  }

  predicate Sealable(env: Env, key: string) { key in env && env[key] != "" }

  /** The keys can all be sealed. */
  predicate Seals(keys: seq<string>, env: Env, w: World) {
    |keys| <= w.sealFailsAt && forall k :: 0 <= k < |keys| ==> Sealable(env, keys[k])
  }

  /** Whether the staged tree can be swapped in. */
  predicate Swaps(retired: Option<Tree>, w: World) {
    || w.exchanges
    || (!w.retireFails && (Removed(retired, w.clearRetired) == None
      || Removed(retired, w.clearRetired) == Some(EMPTY_TREE))
        && !w.installFails)
  }

  /** The failure paths that lose the way back: the old store is then beside where it was. */
  ghost predicate Restored(d: Dirs, before: Tree, w: World) {
    d.live == Some(before) || (d.live.None? && d.retired == Some(before) && w.installFails && w.restoreFails)
  }

  class Disk {
    var live: Option<Tree>
    var staging: Option<Tree>
    var retired: Option<Tree>
    /** Every state the directories have been in. */
    ghost var trace: seq<Dirs>

    constructor (live: Option<Tree>, staging: Option<Tree>, retired: Option<Tree>)
      ensures this.live == live && this.staging == staging && this.retired == retired && trace == []
    {
      this.live, this.staging, this.retired := live, staging, retired;
      trace := [];
    }

    ghost function Now(): Dirs
      reads this
    {
      Dirs(live, staging, retired)
    }

    /** The states since the trace was `was` are all safe. */
    ghost predicate SafeSince(was: seq<Dirs>, before: Tree, staged: Tree)
      reads this
    {
      |was| <= |trace| && SafeFrom(trace, |was|, before, staged)
    }

    method ClearStaging(r: Removal)
      modifies this`staging, this`trace
      ensures staging == Removed(old(staging), r) && trace == old(trace) + [Now()]
    {
      staging := Removed(staging, r);
      trace := trace + [Now()];
    }

    method ClearRetired(r: Removal)
      modifies this`retired, this`trace
      ensures retired == Removed(old(retired), r) && trace == old(trace) + [Now()]
    {
      retired := Removed(retired, r);
      trace := trace + [Now()];
    }

    /** Seal every key into the staging directory; a failure leaves what was sealed so far. */
    method SealAll(keys: seq<string>, env: Env, w: World, ghost before: Tree, ghost staged: Tree) returns (ok: bool)
      requires staging.Some? && Safe(Now(), before, staged)
      modifies this`staging, this`trace
      ensures ok == Seals(keys, env, w) && staging.Some?
      ensures ok ==> staging == Some(old(staging).value.(files := old(staging).value.files + Wanted(keys, env)))
      ensures |old(trace)| <= |trace| && trace[..|old(trace)|] == old(trace) && SafeSince(old(trace), before, staged)
    {
      ghost var was := trace;
      assert staging.value.files + Wanted(keys[..0], env) == staging.value.files;
      assert trace[..|was|] == was;
      for i := 0 to |keys|
        invariant i <= w.sealFailsAt && forall k :: 0 <= k < i ==> Sealable(env, keys[k])
        invariant staging == Some(old(staging).value.(files := old(staging).value.files + Wanted(keys[..i], env)))
        invariant |was| <= |trace| && trace[..|was|] == was && SafeSince(was, before, staged)
      {
        var key := keys[i];
        if !Sealable(env, key) {
          return false;
        }
        if i == w.sealFailsAt {
          if w.halfSealed.Some? {
            staging := Some(staging.value.(files := staging.value.files[key := w.halfSealed.value]));
            trace := trace + [Now()];
          }
          return false;
        }
        staging := Some(staging.value.(files := staging.value.files[key := env[key]]));
        trace := trace + [Now()];
        WantedPush(keys, i, env, old(staging).value.files);
      }
      assert keys[..|keys|] == keys;
      return true;
    }

    /** The staging-swap install of one service. */
    method SealIntoStore(hash: Hash, keys: seq<string>, env: Env, hostKey: string, w: World) returns (r: Outcome)
      modifies this
      ensures !w.liveDirFails ==> SafeSince(old(trace), Before(old(live)), Staged(old(staging), w, keys, env))
      ensures Ran(hash, old(Now()), Run(keys, env, hostKey, w), Now(), r)
    {
      if w.liveDirFails {
        return Failed;
      }
      if live.None? {
        live := Some(EMPTY_TREE);
      }
      trace := trace + [Now()];
      var fingerprint := SealFingerprint(hash, keys, env, hostKey);
      var current := StoreIsCurrent(live.value, keys, fingerprint);
      if current {
        return Skipped;
      }
      ghost var begun := Now();
      r := StageAndSwap(keys, env, fingerprint, w);
      SafeOneEarlier(old(trace), begun, trace, Before(old(live)), Staged(old(staging), w, keys, env));
    }

    /** The recorded fingerprint says the values did not change, the listing that no file was lost or added. */
    static method StoreIsCurrent(tree: Tree, keys: seq<string>, fingerprint: string) returns (current: bool)
      ensures current <==> IsCurrent(tree, keys, fingerprint)
    {
      if tree.fingerprint != Some(fingerprint) {
        return false;
      }
      current := SameNames(tree.files.Keys, keys);
    }

    /** An empty staging directory, but for what could not be removed. */
    method MakeStaging(w: World) returns (ok: bool)
      modifies this`staging, this`trace
      ensures ok == !w.stagingDirFails && (ok ==> staging == Some(Leftover(old(staging), w)))
      ensures |old(trace)| <= |trace| && trace[..|old(trace)|] == old(trace)
      ensures forall k :: |old(trace)| <= k < |trace| ==> trace[k].live == live && trace[k].retired == retired
    {
      ClearStaging(w.clearStaging);
      if w.stagingDirFails {
        return false;
      }
      if staging.None? {
        staging := Some(EMPTY_TREE);
      }
      trace := trace + [Now()];
      return true;
    }

    /** Seal everything beside the live store, then swap. */
    method StageAndSwap(keys: seq<string>, env: Env, fingerprint: string, w: World) returns (r: Outcome)
      requires live.Some?
      modifies this
      ensures |old(trace)| <= |trace| && trace[..|old(trace)|] == old(trace)
      ensures SafeSince(old(trace), old(live).value, Staged(old(staging), w, keys, env))
      ensures r != Skipped
      ensures r == Installed <==> !w.stagingDirFails && Seals(keys, env, w) && Swaps(old(retired), w)
      ensures r == Installed ==>
                live == Some(Tree(Staged(old(staging), w, keys, env).files,
                                  if w.recordFails then Leftover(old(staging), w).fingerprint else Some(fingerprint)))
      ensures r == Failed ==> Restored(Now(), old(live).value, w)
    {
      ghost var before, staged := live.value, Staged(staging, w, keys, env);
      var made := MakeStaging(w);
      if !made {
        return Failed;
      }
      var sealed := SealAll(keys, env, w, before, staged);
      if !sealed {
        ClearStaging(w.dropStaging);
        return Failed;
      }
      ghost var sealing := trace;
      r := Swap(fingerprint, w, before, staged);
      SafeThrough(|old(trace)|, sealing, trace, before, staged);
    }

    /** Swap the staged tree in: in one exchange where there is one, else by two renames. */
    method Swap(fingerprint: string, w: World, ghost before: Tree, ghost staged: Tree) returns (r: Outcome)
      requires live == Some(before) && staging == Some(staged)
      modifies this
      ensures r != Skipped && SafeSince(old(trace), before, staged) && trace[..|old(trace)|] == old(trace)
      ensures r == Installed <==> Swaps(old(retired), w)
      ensures r == Installed ==>
                live == Some(Tree(staged.files, if w.recordFails then staged.fingerprint else Some(fingerprint)))
      ensures r == Failed ==> Restored(Now(), before, w)
    {
      if w.exchanges {
        live, staging := staging, live;
        trace := trace + [Now()];
        ClearStaging(w.clearOld);
        RecordFingerprint(fingerprint, w);
        return Installed;
      }
      ClearRetired(w.clearRetired);
      r := RenameTwice(w, before, staged);
      if r == Installed {
        RecordFingerprint(fingerprint, w);
      }
    }

    /** The old store is moved aside and the staged one into its place; a failure moves the old one back. */
    method RenameTwice(w: World, ghost before: Tree, ghost staged: Tree) returns (r: Outcome)
      requires live == Some(before) && staging == Some(staged)
      modifies this
      ensures |old(trace)| <= |trace| && trace[..|old(trace)|] == old(trace) && SafeSince(old(trace), before, staged)
      ensures r == if !w.retireFails && (old(retired).None? || old(retired) == Some(EMPTY_TREE)) && !w.installFails
                   then Installed else Failed
      ensures r == Installed ==> live == Some(staged)
      ensures r == Failed ==> Restored(Now(), before, w)
    {
      if w.retireFails || (retired.Some? && retired != Some(EMPTY_TREE)) {
        ClearStaging(w.dropStaging);
        return Failed;
      }
      live, retired := None, live;
      trace := trace + [Now()];
      if w.installFails {
        if !w.restoreFails {
          live, retired := retired, None;
          trace := trace + [Now()];
        }
        ClearStaging(w.dropStaging);
        return Failed;
      }
      live, staging := staging, None;
      trace := trace + [Now()];
      ClearRetired(w.dropRetired);
      return Installed;
    }

    method RecordFingerprint(fingerprint: string, w: World)
      requires live.Some?
      modifies this`live, this`trace
      ensures live == Some(Tree(old(live).value.files,
                                if w.recordFails then old(live).value.fingerprint else Some(fingerprint)))
      ensures trace == old(trace) + [Now()]
    {
      if !w.recordFails {
        live := Some(live.value.(fingerprint := Some(fingerprint)));
      }
      trace := trace + [Now()];
    }
  }

  lemma WantedPush(keys: seq<string>, i: nat, env: Env, files: map<string, string>)
    requires i < |keys| && keys[i] in env
    ensures (files + Wanted(keys[..i], env))[keys[i] := env[keys[i]]] == files + Wanted(keys[..i + 1], env)
  {
    assert keys[..i + 1] == keys[..i] + [keys[i]];
  }

  /** Whether the sorted list of names and the sorted list of keys are the same. */
  method SameNames(names: set<string>, keys: seq<string>) returns (same: bool)
    ensures same <==> Distinct(keys) && names == set k | k in keys
  {
    var seen: set<string> := {};
    for i := 0 to |keys|
      invariant seen == set k | k in keys[..i]
      invariant Distinct(keys[..i])
    {
      assert keys[..i + 1] == keys[..i] + [keys[i]];
      if keys[i] in seen {
        var j :| 0 <= j < i && keys[j] == keys[i];
        return false;
      }
      seen := seen + {keys[i]};
    }
    assert keys[..|keys|] == keys;
    return seen == names;
  }

  /**
   Exactly when an install that reports success leaves just the wanted credentials: when nothing stayed
   in the staging directory but files it overwrites.
   */
  lemma InstalledIsExact(staging: Option<Tree>, w: World, keys: seq<string>, env: Env)
    ensures Staged(staging, w, keys, env).files == Wanted(keys, env)
            <==> Leftover(staging, w).files.Keys <= set k | k in keys
  {
    OverwrittenIff(Leftover(staging, w).files, keys, env);
  }

  lemma OverwrittenIff(left: map<string, string>, keys: seq<string>, env: Env)
    ensures left + Wanted(keys, env) == Wanted(keys, env) <==> left.Keys <= set k | k in keys
  {
    var staged := left + Wanted(keys, env);
    assert Wanted(keys, env).Keys == set k | k in keys;
    assert staged.Keys == left.Keys + Wanted(keys, env).Keys;
    if left.Keys <= set k | k in keys {
      assert staged == Wanted(keys, env);
    }
  }

  /** What an install that reports success leaves in place. */
  function Live(hash: Hash, left: Tree, recordFails: bool, keys: seq<string>, env: Env, hostKey: string): Tree {
    Tree(left.files + Wanted(keys, env),
         if recordFails then left.fingerprint else Some(Fingerprint(hash, keys, env, hostKey)))
  }

  /** `left.fingerprint` is one of the values that are sealed now, under whichever host key. */
  ghost predicate FingerprintOf(hash: Hash, left: Tree, keys: seq<string>, env: Env) {
    exists hostKey :: left.fingerprint == Some(Fingerprint(hash, keys, env, hostKey))
  }

  /**
   Exactly when the recorded fingerprint describes the tree it is in: when nothing stayed in the staging
   directory but files that are overwritten, and, if the new fingerprint could not be written, what stayed of
   an old one is a fingerprint of the same values, or nothing stayed of one.
   */
  lemma InstalledIsDescribed(hash: Hash, left: Tree, recordFails: bool, keys: seq<string>, env: Env, hostKey: string)
    requires Distinct(keys) && PlainKeys(keys) && PlainValues(keys, env)
    ensures DescribedFor(hash, Live(hash, left, recordFails, keys, env, hostKey), keys)
            <==> (recordFails && left.fingerprint.None?)
                 || (left.files.Keys <= (set k | k in keys) && (recordFails ==> FingerprintOf(hash, left, keys, env)))
  {
    var live := Live(hash, left, recordFails, keys, env, hostKey);
    OverwrittenIff(left.files, keys, env);
    if envWas, hostWas :| DescribedBy(hash, live, keys, envWas, hostWas) {
      assert Wanted(keys, envWas).Keys == set k | k in keys;
      ValuesSame(keys, envWas, env);
      assert Fingerprint(hash, keys, envWas, hostWas) == Fingerprint(hash, keys, env, hostWas);
    }
    if left.files.Keys <= (set k | k in keys) && !recordFails {
      assert DescribedBy(hash, live, keys, env, hostKey);
    }
    if left.files.Keys <= (set k | k in keys) && recordFails {
      if hostWas :| left.fingerprint == Some(Fingerprint(hash, keys, env, hostWas)) {
        assert DescribedBy(hash, live, keys, env, hostWas);
      }
    }
  }

  lemma ValuesSame(keys: seq<string>, was: Env, next: Env)
    requires Wanted(keys, was) == Wanted(keys, next)
    ensures forall k :: k in keys ==> ValueOf(was, k) == ValueOf(next, k)
    ensures ValueLines(keys, was) == ValueLines(keys, next)
  {
    forall k | k in keys ensures ValueOf(was, k) == ValueOf(next, k) {
      assert Wanted(keys, was)[k] == Wanted(keys, next)[k];
    }
    LinesSame(keys, was, next);
  }

  /** The next install is misled: it skips a store that does not hold what it was to seal. */
  ghost predicate Misled(hash: Hash, live: Tree, keys: seq<string>, next: Env, hostKey: string) {
    IsCurrent(live, keys, Fingerprint(hash, keys, next, hostKey)) && live.files != Wanted(keys, next)
  }

  /** Exactly when an install misleads a later one of the same keys, whatever the values are. */
  lemma MisledIff(hash: Hash, left: Tree, recordFails: bool, keys: seq<string>, now: Env, host: string, next: Env,
                  host2: string)
    requires Injective(hash) && Distinct(keys)
    ensures Misled(hash, Live(hash, left, recordFails, keys, now, host), keys, next, host2)
            <==> left.files.Keys <= (set k | k in keys) && Wanted(keys, now) != Wanted(keys, next)
                 && if recordFails then left.fingerprint == Some(Fingerprint(hash, keys, next, host2))
                    else Hashed(keys, now, host) == Hashed(keys, next, host2)
  {
    OverwrittenIff(left.files, keys, now);
    assert Wanted(keys, now).Keys == set k | k in keys;
    assert (left.files + Wanted(keys, now)).Keys == left.files.Keys + set k | k in keys;
  }

  /**
   Where no value holds a line break: exactly when the fingerprint could not be written, and the one that
   stayed in the staging directory is that of the later values.
   */
  lemma PlainMisledIff(hash: Hash, left: Tree, recordFails: bool, keys: seq<string>, now: Env, host: string,
                       next: Env, host2: string)
    requires Injective(hash) && Distinct(keys) && PlainKeys(keys) && PlainValues(keys, now) && PlainValues(keys, next)
    ensures Misled(hash, Live(hash, left, recordFails, keys, now, host), keys, next, host2)
            <==> recordFails && left.fingerprint == Some(Fingerprint(hash, keys, next, host2))
                 && left.files.Keys <= (set k | k in keys) && Wanted(keys, now) != Wanted(keys, next)
  {
    MisledIff(hash, left, recordFails, keys, now, host, next, host2);
    if Hashed(keys, now, host) == Hashed(keys, next, host2) {
      SameTextSameFiles(keys, now, host, keys, next, host2);
    }
  }

  // Successive runs.

  /** What one install is asked to do, and what the file system does with it. */
  datatype Run = Run(keys: seq<string>, env: Env, hostKey: string, w: World)

  /** What one install makes of the directories. */
  ghost predicate Ran(hash: Hash, before: Dirs, run: Run, after: Dirs, r: Outcome) {
    var store, left := Before(before.live), Leftover(before.staging, run.w);
    var fingerprint := Fingerprint(hash, run.keys, run.env, run.hostKey);
    if run.w.liveDirFails then r == Failed && after == before
    else
      && (r == Skipped <==> IsCurrent(store, run.keys, fingerprint))
      && (r == Skipped ==> after.live == Some(store))
      && (r == Installed <==> r != Skipped && !run.w.stagingDirFails && Seals(run.keys, run.env, run.w)
                              && Swaps(before.retired, run.w))
      && (r == Installed ==> after.live == Some(Live(hash, left, run.w.recordFails, run.keys, run.env, run.hostKey)))
      && (r == Failed ==> Restored(after, store, run.w))
  }

  /** What a removal leaves of a directory: the files named, and the fingerprint if it stays. */
  lemma RemovalLeaves(t: Option<Tree>, r: Removal)
    ensures Removed(t, r).Some? <==> t.Some? && r.Stays?
    ensures t.Some? && r.Stays? ==>
              && (forall k :: k in Removed(t, r).value.files <==> k in t.value.files && k in r.names)
              && (forall k :: k in Removed(t, r).value.files ==> Removed(t, r).value.files[k] == t.value.files[k])
              && Removed(t, r).value.fingerprint == if r.keepsFingerprint then t.value.fingerprint else None
  {
  }

  /** Nothing stays of the directory that the live store is to be moved to. */
  predicate Emptied(t: Option<Tree>, r: Removal) {
    match (t, r)
    case (Some(tree), Stays(names, keepsFingerprint)) =>
      (forall k :: k in tree.files ==> k !in names) && (keepsFingerprint ==> tree.fingerprint.None?)
    case _ => true
  }

  /**
   Exactly when an install takes place, and what it leaves: every key is set and not empty, no call that it
   needs fails, and the new store holds every key with its value, beside what was left in the staging directory.
   */
  lemma InstallsIff(hash: Hash, before: Dirs, run: Run, after: Dirs, r: Outcome)
    requires Ran(hash, before, run, after, r) && r != Skipped
    ensures var w := run.w;
            var sealed := |run.keys| <= w.sealFailsAt && forall k :: k in run.keys ==> k in run.env && run.env[k] != "";
            var swapped := w.exchanges
                           || (Emptied(before.retired, w.clearRetired) && !w.retireFails && !w.installFails);
            r == Installed <==> !w.liveDirFails && !w.stagingDirFails && sealed && swapped
    ensures r == Installed ==>
              && after.live.Some?
              && (forall k :: k in run.keys ==> k in after.live.value.files && after.live.value.files[k] == run.env[k])
              && (forall k :: k !in run.keys ==>
                    (k in after.live.value.files <==>
                       before.staging.Some? && k in before.staging.value.files && run.w.clearStaging.Stays?
                       && k in run.w.clearStaging.names))
              && (forall k :: k !in run.keys && k in after.live.value.files ==>
                    after.live.value.files[k] == before.staging.value.files[k])
  {
    RemovalLeaves(before.staging, run.w.clearStaging);
    RetiredIsEmpty(before.retired, run.w.clearRetired);
    assert (forall k :: k in run.keys ==> Sealable(run.env, k))
           <==> (forall k :: 0 <= k < |run.keys| ==> Sealable(run.env, run.keys[k]));
  }

  lemma RetiredIsEmpty(t: Option<Tree>, r: Removal)
    ensures Emptied(t, r) <==> Removed(t, r) == None || Removed(t, r) == Some(EMPTY_TREE)
  {
    RemovalLeaves(t, r);
    if t.Some? && r.Stays? {
      var left := Removed(t, r).value;
      if Emptied(t, r) {
        assert forall k :: k !in left.files;
        assert left.files == map[];
      }
      if left == EMPTY_TREE {
        forall k | k in t.value.files ensures k !in r.names {
          assert k !in left.files;
        }
      }
    }
  }

  /** The keys and values are plain, and what stays in the staging directory does no harm. */
  ghost predicate Honest(hash: Hash, before: Dirs, run: Run) {
    var left := Leftover(before.staging, run.w);
    && Distinct(run.keys) && PlainKeys(run.keys) && PlainValues(run.keys, run.env)
    && if run.w.recordFails then left.fingerprint.None? else left.files.Keys <= set k | k in run.keys
  }

  /** The directories before and after each of the runs. */
  ghost predicate History(hash: Hash, states: seq<Dirs>, runs: seq<Run>, results: seq<Outcome>) {
    && |states| == |runs| + 1 && |results| == |runs|
    && forall k :: 0 <= k < |runs| ==> Ran(hash, states[k], runs[k], states[k + 1], results[k])
  }

  ghost predicate LiveDescribed(hash: Hash, d: Dirs) { d.live.Some? ==> Described(hash, d.live.value) }

  /** One honest run keeps the live store described, and a skip is sound. */
  lemma RunKeepsDescribed(hash: Hash, before: Dirs, run: Run, after: Dirs, r: Outcome)
    requires Injective(hash) && Ran(hash, before, run, after, r) && LiveDescribed(hash, before)
        && Honest(hash, before, run)
    ensures LiveDescribed(hash, after)
    ensures r == Skipped ==> after.live.Some? && after.live.value.files == Wanted(run.keys, run.env)
  {
    if r == Installed {
      var left := Leftover(before.staging, run.w);
      var live := Live(hash, left, run.w.recordFails, run.keys, run.env, run.hostKey);
      InstalledIsDescribed(hash, left, run.w.recordFails, run.keys, run.env, run.hostKey);
      assert DescribedFor(hash, live, run.keys);
    } else if r == Skipped {
      CurrentIsSound(hash, Before(before.live), run.keys, run.env, run.hostKey);
    }
  }

  /** Over any honest history, every skip leaves exactly the credentials that were to be sealed. */
  lemma {:induction false} EverySkipIsSound(hash: Hash, states: seq<Dirs>, runs: seq<Run>, results: seq<Outcome>,
                                            n: nat)
    requires Injective(hash) && History(hash, states, runs, results) && LiveDescribed(hash, states[0])
    requires n <= |runs| && forall k :: 0 <= k < |runs| ==> Honest(hash, states[k], runs[k])
    ensures LiveDescribed(hash, states[n])
    ensures forall k :: 0 <= k < n && results[k] == Skipped
              ==> states[k + 1].live.Some? && states[k + 1].live.value.files == Wanted(runs[k].keys, runs[k].env)
  {
    if n > 0 {
      EverySkipIsSound(hash, states, runs, results, n - 1);
      RunKeepsDescribed(hash, states[n - 1], runs[n - 1], states[n], results[n - 1]);
    }
  }
}
