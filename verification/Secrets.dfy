/**
 Resolving `@secrets`: which value each host's environment gets, the exported list of secret keys, and
 which values are registered for redaction.
 */
module Secrets {
  import opened Text
  import opened Masking
  import opened Words

  type Pairs = seq<(string, string)>

  /** The variable that lists the exported secret keys. */
  const SECRET_KEYS_VAR: string := "LT_SECRET_KEYS"

  const HOST_MARK: string := "{host}"

  // Environments as vectors of pairs.

  /** The first pair with the key. */
  function Lookup(env: Pairs, key: string): Option<string> {
    if env == [] then None
    else if env[0].0 == key then Some(env[0].1)
    else Lookup(env[1..], key)
  }

  function Put(env: Pairs, key: string, value: string): Pairs {
    if env == [] then [(key, value)]
    else if env[0].0 == key then [(key, value)] + env[1..]
    else [env[0]] + Put(env[1..], key, value)
  }

  lemma {:induction false} PutReads(env: Pairs, key: string, value: string, other: string)
    ensures Lookup(Put(env, key, value), other) == if other == key then Some(value) else Lookup(env, other)
  {
    if env != [] && env[0].0 != key {
      PutReads(env[1..], key, value, other);
      assert Put(env, key, value)[1..] == Put(env[1..], key, value);
    }
  }

  lemma {:induction false} PutAt(env: Pairs, key: string, value: string, i: nat)
    requires i <= |env| && forall j :: 0 <= j < i ==> env[j].0 != key
    ensures i < |env| && env[i].0 == key ==>
              Put(env, key, value) == env[i := (key, value)] && Lookup(env, key) == Some(env[i].1)
    ensures i == |env| ==> Put(env, key, value) == env + [(key, value)] && Lookup(env, key) == None
  {
    if 0 < i {
      PutAt(env[1..], key, value, i - 1);
    }
  }

  predicate KeepsPlaces(env: Pairs, later: Pairs) {
    |env| <= |later| && forall i :: 0 <= i < |env| ==> later[i].0 == env[i].0
  }

  lemma {:induction false} PutKeeps(env: Pairs, key: string, value: string)
    ensures KeepsPlaces(env, Put(env, key, value))
  {
    if env != [] {
      PutKeeps(env[1..], key, value);
    }
  }

  /** An environment that is edited in place. */
  class Env {
    var pairs: Pairs

    constructor (pairs: Pairs)
      ensures this.pairs == pairs
    {
      this.pairs := pairs;
    }

    method Find(key: string) returns (at: nat)
      ensures at <= |pairs| && (forall j :: 0 <= j < at ==> pairs[j].0 != key) && (at < |pairs| ==> pairs[at].0 == key)
    {
      at := 0;
      while at < |pairs| && pairs[at].0 != key
        invariant at <= |pairs| && forall j :: 0 <= j < at ==> pairs[j].0 != key
      {
        at := at + 1;
      }
    }

    method Set(key: string, value: string)
      modifies this
      ensures pairs == Put(old(pairs), key, value)
    {
      var at := Find(key);
      PutAt(pairs, key, value, at);
      if at < |pairs| {
        pairs := pairs[at := (key, value)];
      } else {
        pairs := pairs + [(key, value)];
      }
    }

    method Get(key: string) returns (value: Option<string>)
      ensures value == Lookup(pairs, key)
    {
      var at := Find(key);
      PutAt(pairs, key, "", at);
      value := if at < |pairs| then Some(pairs[at].1) else None;
    }
  }

  // The list of keys.

  predicate IsOneWord(w: string) { w != "" && forall c :: c in w ==> !IsWhitespace(c) }

  predicate AllWords(ws: seq<string>) { forall k :: 0 <= k < |ws| ==> IsOneWord(ws[k]) }

  /** `str::split_whitespace`; `cur` is the word being read. */
  function SplitBlank(cur: string, s: string): seq<string>
    decreases |s|
  {
    if s == "" then (if cur == "" then [] else [cur])
    else if IsWhitespace(s[0]) then (if cur == "" then [] else [cur]) + SplitBlank("", s[1..])
    else SplitBlank(cur + [s[0]], s[1..])
  }

  lemma {:induction false} SplitGivesWords(cur: string, s: string)
    requires forall c :: c in cur ==> !IsWhitespace(c)
    ensures AllWords(SplitBlank(cur, s))
    decreases |s|
  {
    if s != "" {
      SplitGivesWords(if IsWhitespace(s[0]) then "" else cur + [s[0]], s[1..]);
    }
  }

  lemma {:induction false} WordRead(cur: string, w: string, rest: string)
    requires forall c :: c in w ==> !IsWhitespace(c)
    ensures SplitBlank(cur, w + rest) == SplitBlank(cur + w, rest)
    decreases |w|
  {
    if w == "" {
      assert w + rest == rest && cur + w == cur;
    } else {
      assert w[0] in w;
      WordRead(cur + [w[0]], w[1..], rest);
      assert (w + rest)[1..] == w[1..] + rest;
      assert cur + [w[0]] + w[1..] == cur + w;
    }
  }

  /** Splitting a joined list of words gives the list back. */
  lemma {:induction false} ListReadsBack(ws: seq<string>)
    requires AllWords(ws)
    ensures SplitBlank("", Join(ws, " ")) == ws
  {
    if |ws| == 1 {
      WordRead("", ws[0], "");
      assert ws[0] + "" == ws[0] && "" + ws[0] == ws[0];
    } else if |ws| > 1 {
      var rest := Join(ws[1..], " ");
      ListReadsBack(ws[1..]);
      Assoc(ws[0], " ", rest);
      WordRead("", ws[0], " " + rest);
      assert "" + ws[0] == ws[0];
      assert (" " + rest)[1..] == rest;
      assert [ws[0]] + ws[1..] == ws;
    }
  }

  function AddNew(keys: seq<string>, key: string): seq<string> { if key in keys then keys else keys + [key] }

  function AddAll(keys: seq<string>, pairs: Pairs): seq<string> {
    if pairs == [] then keys else AddNew(AddAll(keys, pairs[..|pairs| - 1]), pairs[|pairs| - 1].0)
  }

  function AddKeys(keys: seq<string>, more: seq<string>): seq<string> {
    if more == [] then keys else AddNew(AddKeys(keys, more[..|more| - 1]), more[|more| - 1])
  }

  /** Extending a list by the distinct keys of the pairs is extending it by every pair's key. */
  lemma {:induction false} KeysOnce(keys: seq<string>, pairs: Pairs)
    ensures AddKeys(keys, AddAll([], pairs)) == AddAll(keys, pairs)
  {
    if pairs != [] {
      var init, key := pairs[..|pairs| - 1], pairs[|pairs| - 1].0;
      KeysOnce(keys, init);
      var before := AddAll([], init);
      if key in before {
        AddedHolds(keys, before, key);
      } else {
        assert (before + [key])[..|before|] == before;
      }
    }
  }

  lemma {:induction false} AddedHolds(keys: seq<string>, more: seq<string>, key: string)
    ensures key in AddKeys(keys, more) <==> key in keys || key in more
  {
    if more != [] {
      AddedHolds(keys, more[..|more| - 1], key);
      assert more == more[..|more| - 1] + [more[|more| - 1]];
    }
  }

  predicate HasKey(pairs: Pairs, key: string) { exists k :: 0 <= k < |pairs| && pairs[k].0 == key }

  /** The list keeps what it had, in place, and gains exactly the new keys, each once. */
  lemma {:induction false} AddAllHolds(keys: seq<string>, pairs: Pairs, key: string)
    ensures keys <= AddAll(keys, pairs)
    ensures key in AddAll(keys, pairs) <==> key in keys || HasKey(pairs, key)
    ensures Distinct(keys) ==> Distinct(AddAll(keys, pairs))
  {
    if pairs != [] {
      var init, last := pairs[..|pairs| - 1], pairs[|pairs| - 1];
      AddAllHolds(keys, init, key);
      if HasKey(init, key) {
        var k :| 0 <= k < |init| && init[k].0 == key;
        assert pairs[k].0 == key;
      }
    }
  }

  predicate WordKeys(pairs: Pairs) { forall k :: 0 <= k < |pairs| ==> IsOneWord(pairs[k].0) }

  lemma {:induction false} AddAllWords(keys: seq<string>, pairs: Pairs)
    requires AllWords(keys) && WordKeys(pairs)
    ensures AllWords(AddAll(keys, pairs))
  {
    if pairs != [] {
      AddAllWords(keys, pairs[..|pairs| - 1]);
    }
  }

  // The overlay of a host's pairs.

  function Layered(env: Pairs, pairs: Pairs): Pairs {
    if pairs == [] then env
    else
      var (key, value) := pairs[|pairs| - 1];
      Put(Layered(env, pairs[..|pairs| - 1]), key, value)
  }

  function ListIn(env: Pairs): seq<string> {
    match Lookup(env, SECRET_KEYS_VAR)
    case Some(v) => SplitBlank("", v)
    case None => []
  }

  function Overlaid(env: Pairs, pairs: Pairs): Pairs {
    var layered := Layered(env, pairs);
    Put(layered, SECRET_KEYS_VAR, Join(AddAll(ListIn(layered), pairs), " "))
  }

  /** The value of the last pair with the key. */
  function LastValue(pairs: Pairs, key: string): Option<string> {
    if pairs == [] then None
    else if pairs[|pairs| - 1].0 == key then Some(pairs[|pairs| - 1].1)
    else LastValue(pairs[..|pairs| - 1], key)
  }

  function Or<T>(a: Option<T>, b: Option<T>): Option<T> { if a.Some? then a else b }

  lemma {:induction false} LayeredReads(env: Pairs, pairs: Pairs, key: string)
    ensures Lookup(Layered(env, pairs), key) == Or(LastValue(pairs, key), Lookup(env, key))
    ensures KeepsPlaces(env, Layered(env, pairs))
  {
    if pairs != [] {
      var init := pairs[..|pairs| - 1];
      var (k, v) := pairs[|pairs| - 1];
      LayeredReads(env, init, key);
      PutReads(Layered(env, init), k, v, key);
      PutKeeps(Layered(env, init), k, v);
    }
  }

  lemma {:induction false} NoKeyNoValue(pairs: Pairs, key: string)
    ensures LastValue(pairs, key).Some? <==> HasKey(pairs, key)
  {
    if pairs != [] {
      var init := pairs[..|pairs| - 1];
      NoKeyNoValue(init, key);
      if HasKey(init, key) {
        var k :| 0 <= k < |init| && init[k].0 == key;
        assert pairs[k].0 == key;
      }
    }
  }

  /** The host's last value wins, every other variable keeps its value, and no variable moves. */
  lemma OverlayReads(env: Pairs, pairs: Pairs, key: string)
    requires key != SECRET_KEYS_VAR
    ensures Lookup(Overlaid(env, pairs), key) == Or(LastValue(pairs, key), Lookup(env, key))
    ensures KeepsPlaces(env, Overlaid(env, pairs))
  {
    LayeredReads(env, pairs, key);
    var layered := Layered(env, pairs);
    var list := Join(AddAll(ListIn(layered), pairs), " ");
    PutReads(layered, SECRET_KEYS_VAR, list, key);
    PutKeeps(layered, SECRET_KEYS_VAR, list);
  }

  /** The list that a host's keys are merged into: the host's own value of the variable comes first. */
  function ListBefore(own: Option<string>, exported: Option<string>): seq<string> {
    match Or(own, exported)
    case Some(v) => SplitBlank("", v)
    case None => []
  }

  /** The exported list reads as the list before, then the host's new keys, each once. */
  lemma OverlayList(env: Pairs, pairs: Pairs, key: string)
    requires WordKeys(pairs)
    ensures var before := ListBefore(LastValue(pairs, SECRET_KEYS_VAR), Lookup(env, SECRET_KEYS_VAR));
            && ListIn(Overlaid(env, pairs)) == AddAll(before, pairs)
            && (key in ListIn(Overlaid(env, pairs)) <==> key in before || HasKey(pairs, key))
            && before <= ListIn(Overlaid(env, pairs))
            && (Distinct(before) ==> Distinct(ListIn(Overlaid(env, pairs))))
    ensures !HasKey(pairs, SECRET_KEYS_VAR) ==> ListIn(Overlaid(env, pairs)) == AddAll(ListIn(env), pairs)
  {
    LayeredReads(env, pairs, SECRET_KEYS_VAR);
    NoKeyNoValue(pairs, SECRET_KEYS_VAR);
    var layered := Layered(env, pairs);
    var before := ListIn(layered);
    if Lookup(layered, SECRET_KEYS_VAR).Some? {
      SplitGivesWords("", Lookup(layered, SECRET_KEYS_VAR).value);
    }
    AddAllWords(before, pairs);
    var all := AddAll(before, pairs);
    ListReadsBack(all);
    PutReads(layered, SECRET_KEYS_VAR, Join(all, " "), SECRET_KEYS_VAR);
    AddAllHolds(before, pairs, key);
  }

  class ResolvedSecrets {
    const shared: Pairs
    const perHost: map<string, Pairs>
    const masks: seq<string>
    const shorts: Pairs

    constructor (shared: Pairs, perHost: map<string, Pairs>, masks: seq<string>, shorts: Pairs)
      ensures this.shared == shared && this.perHost == perHost && this.masks == masks && this.shorts == shorts
    {
      this.shared, this.perHost, this.masks, this.shorts := shared, perHost, masks, shorts;
    }

    /** Layer the pairs of this host onto `env`, and list their keys. */
    method Overlay(env: Env, alias: string)
      modifies env
      ensures env.pairs == if alias in perHost then Overlaid(old(env.pairs), perHost[alias]) else old(env.pairs)
    {
      if alias !in perHost {
        return;
      }
      var pairs := perHost[alias];
      var hostKeys: seq<string> := [];
      for i := 0 to |pairs|
        invariant env.pairs == Layered(old(env.pairs), pairs[..i])
        invariant hostKeys == AddAll([], pairs[..i])
      {
        assert pairs[..i + 1][..i] == pairs[..i];
        var (k, v) := pairs[i];
        env.Set(k, v);
        if k !in hostKeys {
          hostKeys := hostKeys + [k];
        }
      }
      assert pairs[..|pairs|] == pairs;
      MergeKeys(env, hostKeys);
      KeysOnce(ListIn(Layered(old(env.pairs), pairs)), pairs);
    }

    /** Merge keys into the exported list. */
    static method MergeKeys(env: Env, keys: seq<string>)
      modifies env
      ensures env.pairs == Put(old(env.pairs), SECRET_KEYS_VAR, Join(AddKeys(ListIn(old(env.pairs)), keys), " "))
    {
      var listed := env.Get(SECRET_KEYS_VAR);
      var all := if listed.Some? then SplitBlank("", listed.value) else [];
      for i := 0 to |keys|
        invariant all == AddKeys(ListIn(env.pairs), keys[..i])
      {
        assert keys[..i + 1][..i] == keys[..i];
        if keys[i] !in all {
          all := all + [keys[i]];
        }
      }
      assert keys[..|keys|] == keys;
      env.Set(SECRET_KEYS_VAR, Join(all, " "));
    }
  }

  // Reading the files.

  datatype Registry = Registry(masks: seq<string>, shorts: Pairs)

  function Without(pairs: Pairs, key: string): Pairs {
    if pairs == [] then []
    else
      var last := pairs[|pairs| - 1];
      Without(pairs[..|pairs| - 1], key) + if last.0 == key then [] else [last]
  }

  function Registered(r: Registry, min: nat, pair: (string, string)): Registry {
    var (key, value) := pair;
    if min <= |value| && value !in r.masks then r.(masks := r.masks + [value])
    else if value != "" then r.(shorts := Without(r.shorts, key) + [pair])
    else r
  }

  function RegisteredAll(r: Registry, min: nat, pairs: Pairs): Registry {
    if pairs == [] then r else Registered(RegisteredAll(r, min, pairs[..|pairs| - 1]), min, pairs[|pairs| - 1])
  }

  /** The pairs pushed one by one, each replacing an earlier one with its key. */
  function LastWins(before: Pairs, pairs: Pairs): Pairs {
    if pairs == [] then before
    else
      var last := pairs[|pairs| - 1];
      Without(LastWins(before, pairs[..|pairs| - 1]), last.0) + [last]
  }

  /** Register a file's values, and return its pairs with repeated keys resolved. */
  method DecryptFile(pairs: Pairs, min: nat, masks: seq<string>, shorts: Pairs)
    returns (out: Pairs, masks': seq<string>, shorts': Pairs)
    ensures out == LastWins([], pairs)
    ensures Registry(masks', shorts') == RegisteredAll(Registry(masks, shorts), min, pairs)
  {
    out, masks', shorts' := [], masks, shorts;
    for i := 0 to |pairs|
      invariant out == LastWins([], pairs[..i])
      invariant Registry(masks', shorts') == RegisteredAll(Registry(masks, shorts), min, pairs[..i])
    {
      assert pairs[..i + 1][..i] == pairs[..i];
      var (key, value) := pairs[i];
      if |value| >= min && value !in masks' {
        masks' := masks' + [value];
      } else if value != "" {
        shorts' := Without(shorts', key) + [(key, value)];
      }
      out := Without(out, key) + [(key, value)];
    }
    assert pairs[..|pairs|] == pairs;
  }

  /** An `@secrets` file with the host's alias in place of `{host}`. */
  function PathFor(file: string, alias: string): string {
    match FindFrom(file, HOST_MARK, 0)
    case None => file
    case Some(p) => file[..p] + alias + PathFor(file[p + |HOST_MARK|..], alias)
  }

  predicate PerHost(file: string) { FindFrom(file, HOST_MARK, 0).Some? }

  /** A file to read, and the host that gets its pairs (every host, when none is named). */
  datatype Read = Read(path: string, alias: Option<string>)

  function HostReads(file: string, hosts: seq<string>): seq<Read> {
    if hosts == [] then []
    else
      var last := hosts[|hosts| - 1];
      HostReads(file, hosts[..|hosts| - 1]) + [Read(PathFor(file, last), Some(last))]
  }

  function EntryReads(file: string, hosts: seq<string>): seq<Read> {
    if PerHost(file) then HostReads(file, hosts) else [Read(file, None)]
  }

  function Reads(entries: seq<string>, hosts: seq<string>): seq<Read> {
    if entries == [] then []
    else Reads(entries[..|entries| - 1], hosts) + EntryReads(entries[|entries| - 1], hosts)
  }

  datatype Progress = Progress(shared: Pairs, keys: seq<string>, perHost: map<string, Pairs>, registry: Registry)

  const NOTHING := Progress([], [], map[], Registry([], []))

  function PairsOf(p: Progress, alias: string): Pairs { if alias in p.perHost then p.perHost[alias] else [] }

  function Absorbed(p: Progress, alias: Option<string>, min: nat, pairs: Pairs): Progress {
    var registry := RegisteredAll(p.registry, min, pairs);
    var own := LastWins([], pairs);
    match alias
    case Some(a) => p.(perHost := p.perHost[a := PairsOf(p, a) + own], registry := registry)
    case None => p.(shared := LastWins(p.shared, own), keys := AddAll(p.keys, own), registry := registry)
  }

  datatype Outcome = Done(progress: Progress) | Failed(path: string)

  /** A file that cannot be read ends the resolution. */
  function Next(o: Outcome, files: map<string, Pairs>, min: nat, read: Read): Outcome {
    if o.Failed? then o
    else if read.path in files then Done(Absorbed(o.progress, read.alias, min, files[read.path]))
    else Failed(read.path)
  }

  /** The files read one after the other. */
  function AllRead(queue: seq<Read>, files: map<string, Pairs>, min: nat): Outcome {
    if queue == [] then Done(NOTHING)
    else Next(AllRead(queue[..|queue| - 1], files, min), files, min, queue[|queue| - 1])
  }

  function SharedEnv(p: Progress): Pairs {
    p.shared + if p.keys == [] then [] else [(SECRET_KEYS_VAR, Join(p.keys, " "))]
  }

  lemma ReadOne(queue: seq<Read>, files: map<string, Pairs>, min: nat, read: Read)
    ensures AllRead(queue + [read], files, min) == Next(AllRead(queue, files, min), files, min, read)
  {
    assert (queue + [read])[..|queue|] == queue;
  }

  lemma {:induction false} FailureStays(queue: seq<Read>, more: seq<Read>, files: map<string, Pairs>, min: nat)
    requires AllRead(queue, files, min).Failed?
    ensures AllRead(queue + more, files, min) == AllRead(queue, files, min)
  {
    if more == [] {
      assert queue + more == queue;
    } else {
      var init, last := more[..|more| - 1], more[|more| - 1];
      FailureStays(queue, init, files, min);
      assert queue + more == queue + init + [last];
      ReadOne(queue + init, files, min, last);
    }
  }

  class Resolver {
    const files: map<string, Pairs>
    const min: nat
    var shared: Pairs
    var keys: seq<string>
    var perHost: map<string, Pairs>
    var masks: seq<string>
    var shorts: Pairs

    ghost function View(): Progress
      reads this
    {
      Progress(shared, keys, perHost, Registry(masks, shorts))
    }

    constructor (files: map<string, Pairs>, min: nat)
      ensures this.files == files && this.min == min && View() == NOTHING
    {
      this.files, this.min := files, min;
      shared, keys, perHost, masks, shorts := [], [], map[], [], [];
    }

    /** Read, decrypt and parse one file. */
    method ReadFile(path: string) returns (pairs: Option<Pairs>)
      modifies this`masks, this`shorts
      ensures pairs == if path in files then Some(LastWins([], files[path])) else None
      ensures path in files ==> Registry(masks, shorts) == RegisteredAll(old(Registry(masks, shorts)), min, files[path])
      ensures path !in files ==> masks == old(masks) && shorts == old(shorts)
    {
      if path !in files {
        return None;
      }
      var out;
      out, masks, shorts := DecryptFile(files[path], min, masks, shorts);
      return Some(out);
    }

    /** One file per targeted host; a missing file is an error. */
    method ReadHosts(file: string, hosts: seq<string>, ghost queue: seq<Read>) returns (failed: Option<string>)
      requires AllRead(queue, files, min) == Done(View())
      modifies this
      ensures AllRead(queue + HostReads(file, hosts), files, min)
           == if failed.Some? then Failed(failed.value) else Done(View())
    {
      assert queue + [] == queue;
      for i := 0 to |hosts|
        invariant AllRead(queue + HostReads(file, hosts[..i]), files, min) == Done(View())
      {
        var alias := hosts[i];
        var path := PathFor(file, alias);
        NextHost(file, hosts, i, queue);
        var pairs := ReadFile(path);
        if pairs.None? {
          HostReadsFail(file, hosts, i + 1, queue);
          return Some(path);
        }
        var mine := if alias in perHost then perHost[alias] else [];
        perHost := perHost[alias := mine + pairs.value];
      }
      assert hosts[..|hosts|] == hosts;
      return None;
    }

    lemma NextHost(file: string, hosts: seq<string>, i: nat, queue: seq<Read>)
      requires i < |hosts|
      ensures var read := Read(PathFor(file, hosts[i]), Some(hosts[i]));
              AllRead(queue + HostReads(file, hosts[..i + 1]), files, min)
              == Next(AllRead(queue + HostReads(file, hosts[..i]), files, min), files, min, read)
    {
      var read, before := Read(PathFor(file, hosts[i]), Some(hosts[i])), HostReads(file, hosts[..i]);
      assert hosts[..i + 1][..i] == hosts[..i];
      assert queue + (before + [read]) == queue + before + [read];
      ReadOne(queue + before, files, min, read);
    }

    lemma {:induction false} HostReadsFail(file: string, hosts: seq<string>, n: nat, queue: seq<Read>)
      requires n <= |hosts| && AllRead(queue + HostReads(file, hosts[..n]), files, min).Failed?
      ensures AllRead(queue + HostReads(file, hosts), files, min)
          == AllRead(queue + HostReads(file, hosts[..n]), files, min)
      decreases |hosts|
    {
      if n == |hosts| {
        assert hosts[..n] == hosts;
      } else {
        var init := hosts[..|hosts| - 1];
        assert init[..n] == hosts[..n];
        HostReadsFail(file, init, n, queue);
        var last := HostReads(file, hosts)[|HostReads(file, hosts)| - 1];
        assert queue + HostReads(file, hosts) == queue + HostReads(file, init) + [last];
        FailureStays(queue + HostReads(file, init), [last], files, min);
      }
    }

    /** A shared file: its keys are listed once, and its values replace earlier ones. */
    method ReadShared(file: string) returns (failed: Option<string>)
      modifies this
      ensures failed == if file in files then None else Some(file)
      ensures View() == if file in files then Absorbed(old(View()), None, min, files[file]) else old(View())
    {
      var pairs := ReadFile(file);
      if pairs.None? {
        return Some(file);
      }
      AddSharedKeys(pairs.value);
      for i := 0 to |pairs.value|
        invariant shared == LastWins(old(shared), pairs.value[..i])
        invariant keys == AddAll(old(keys), pairs.value) && perHost == old(perHost)
        invariant Registry(masks, shorts) == RegisteredAll(old(Registry(masks, shorts)), min, files[file])
      {
        assert pairs.value[..i + 1][..i] == pairs.value[..i];
        var (key, value) := pairs.value[i];
        shared := Without(shared, key) + [(key, value)];
      }
      assert pairs.value[..|pairs.value|] == pairs.value;
      return None;
    }

    /** One `@secrets` line. */
    method ReadEntry(file: string, hosts: seq<string>, ghost queue: seq<Read>) returns (failed: Option<string>)
      requires AllRead(queue, files, min) == Done(View())
      modifies this
      ensures AllRead(queue + EntryReads(file, hosts), files, min)
           == if failed.Some? then Failed(failed.value) else Done(View())
    {
      if PerHost(file) {
        failed := ReadHosts(file, hosts, queue);
      } else {
        ReadOne(queue, files, min, Read(file, None));
        failed := ReadShared(file);
      }
    }

    method AddSharedKeys(pairs: Pairs)
      modifies this`keys
      ensures keys == AddAll(old(keys), pairs)
    {
      for i := 0 to |pairs|
        invariant keys == AddAll(old(keys), pairs[..i])
      {
        assert pairs[..i + 1][..i] == pairs[..i];
        if pairs[i].0 !in keys {
          keys := keys + [pairs[i].0];
        }
      }
      assert pairs[..|pairs|] == pairs;
    }
  }

  datatype Resolution =
    | Resolved(shared: Pairs, perHost: map<string, Pairs>, masks: seq<string>, shorts: Pairs)
    | Unreadable(path: string)

  function ResolutionOf(o: Outcome): Resolution {
    match o
    case Failed(path) => Unreadable(path)
    case Done(p) => Resolved(SharedEnv(p), p.perHost, p.registry.masks, p.registry.shorts)
  }

  /** Resolve every entry against the hosts the run targets. */
  method ResolveSecrets(entries: seq<string>, hosts: seq<string>, files: map<string, Pairs>, min: nat)
    returns (r: Resolution)
    ensures r == ResolutionOf(AllRead(Reads(entries, hosts), files, min))
  {
    var resolver := new Resolver(files, min);
    for i := 0 to |entries|
      invariant fresh(resolver) && resolver.files == files && resolver.min == min
      invariant AllRead(Reads(entries[..i], hosts), files, min) == Done(resolver.View())
    {
      assert entries[..i + 1][..i] == entries[..i];
      var failed := resolver.ReadEntry(entries[i], hosts, Reads(entries[..i], hosts));
      if failed.Some? {
        ReadsFail(entries, hosts, files, min, i + 1);
        return Unreadable(failed.value);
      }
    }
    assert entries[..|entries|] == entries;
    var shared := resolver.shared;
    if resolver.keys != [] {
      shared := shared + [(SECRET_KEYS_VAR, Join(resolver.keys, " "))];
    }
    return Resolved(shared, resolver.perHost, resolver.masks, resolver.shorts);
  }

  lemma {:induction false} ReadsFail(entries: seq<string>, hosts: seq<string>, files: map<string, Pairs>, min: nat,
                                     n: nat)
    requires n <= |entries| && AllRead(Reads(entries[..n], hosts), files, min).Failed?
    ensures AllRead(Reads(entries, hosts), files, min) == AllRead(Reads(entries[..n], hosts), files, min)
    decreases |entries|
  {
    if n == |entries| {
      assert entries[..n] == entries;
    } else {
      var init, last := entries[..|entries| - 1], entries[|entries| - 1];
      assert init[..n] == entries[..n];
      ReadsFail(init, hosts, files, min, n);
      FailureStays(Reads(init, hosts), EntryReads(last, hosts), files, min);
    }
  }
}
