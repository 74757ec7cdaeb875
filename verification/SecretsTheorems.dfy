/** What resolving `@secrets` comes to. */
module SecretsTheorems {
  // Over all entries, hosts and files: which value a host gets, when the list of secret keys is exported,
  // and which exported values the masker knows.

  import opened Text
  import opened Secrets

  /** The environment of a host's steps. */
  function EnvFor(p: Progress, alias: string): Pairs {
    if alias in p.perHost then Overlaid(SharedEnv(p), p.perHost[alias]) else SharedEnv(p)
  }

  /** All pairs the files for this host hold, in reading order (`None` for the files of every host). */
  function Fed(queue: seq<Read>, files: map<string, Pairs>, alias: Option<string>): Pairs {
    if queue == [] then []
    else
      var last := queue[|queue| - 1];
      Fed(queue[..|queue| - 1], files, alias)
      + if last.alias == alias && last.path in files then files[last.path] else []
  }

  // Which value wins.

  lemma {:induction false} LastValueJoin(a: Pairs, b: Pairs, key: string)
    ensures LastValue(a + b, key) == Or(LastValue(b, key), LastValue(a, key))
  {
    if b == [] {
      assert a + b == a;
    } else {
      assert (a + b)[..|a + b| - 1] == a + b[..|b| - 1];
      LastValueJoin(a, b[..|b| - 1], key);
    }
  }

  lemma {:induction false} LookupJoin(a: Pairs, b: Pairs, key: string)
    ensures Lookup(a + b, key) == Or(Lookup(a, key), Lookup(b, key))
  {
    if a == [] {
      assert a + b == b;
    } else {
      assert (a + b)[1..] == a[1..] + b;
      LookupJoin(a[1..], b, key);
    }
  }

  lemma {:induction false} WithoutReads(pairs: Pairs, key: string, other: string)
    ensures LastValue(Without(pairs, key), other) == if other == key then None else LastValue(pairs, other)
    ensures Lookup(Without(pairs, key), other) == if other == key then None else Lookup(pairs, other)
  {
    if pairs != [] {
      var init, last := pairs[..|pairs| - 1], pairs[|pairs| - 1];
      WithoutReads(init, key, other);
      LookupJoin(init, [last], other);
      LookupJoin(Without(init, key), [last], other);
      LastValueJoin(Without(init, key), [last], other);
      assert pairs == init + [last];
      assert [last][..0] == [] && [last][1..] == [];
      assert last.0 == key ==> Without(pairs, key) == Without(init, key);
    }
  }

  lemma {:induction false} LastWinsReads(before: Pairs, pairs: Pairs, key: string)
    ensures LastValue(LastWins(before, pairs), key) == Or(LastValue(pairs, key), LastValue(before, key))
    ensures Lookup(LastWins(before, pairs), key) == Or(LastValue(pairs, key), Lookup(before, key))
  {
    if pairs != [] {
      var init, last := pairs[..|pairs| - 1], pairs[|pairs| - 1];
      LastWinsReads(before, init, key);
      var kept := LastWins(before, init);
      WithoutReads(kept, last.0, key);
      LookupJoin(Without(kept, last.0), [last], key);
      LastValueJoin(Without(kept, last.0), [last], key);
      assert [last][..0] == [];
    }
  }

  lemma Reading(queue: seq<Read>, files: map<string, Pairs>, min: nat)
    requires queue != [] && AllRead(queue, files, min).Done?
    ensures var last := queue[|queue| - 1];
            var before := AllRead(queue[..|queue| - 1], files, min);
            && before.Done? && last.path in files
            && AllRead(queue, files, min).progress == Absorbed(before.progress, last.alias, min, files[last.path])
  {
  }

  lemma AbsorbedReads(p: Progress, read: Option<string>, min: nat, pairs: Pairs, alias: string, key: string)
    ensures var q := Absorbed(p, read, min, pairs);
            && Lookup(q.shared, key)
               == (if read.None? then Or(LastValue(pairs, key), Lookup(p.shared, key)) else Lookup(p.shared, key))
            && LastValue(PairsOf(q, alias), key)
               == if read == Some(alias) then Or(LastValue(pairs, key), LastValue(PairsOf(p, alias), key))
                  else LastValue(PairsOf(p, alias), key)
  {
    var own := LastWins([], pairs);
    LastWinsReads([], pairs, key);
    LastWinsReads(p.shared, own, key);
    LastValueJoin(PairsOf(p, alias), own, key);
  }

  lemma {:induction false} ProgressReads(queue: seq<Read>, files: map<string, Pairs>, min: nat, alias: string,
                                         key: string)
    requires AllRead(queue, files, min).Done?
    ensures var p := AllRead(queue, files, min).progress;
            && Lookup(p.shared, key) == LastValue(Fed(queue, files, None), key)
            && LastValue(PairsOf(p, alias), key) == LastValue(Fed(queue, files, Some(alias)), key)
  {
    if queue != [] {
      var init, last := queue[..|queue| - 1], queue[|queue| - 1];
      Reading(queue, files, min);
      ProgressReads(init, files, min, alias, key);
      AbsorbedReads(AllRead(init, files, min).progress, last.alias, min, files[last.path], alias, key);
      FedLast(queue, files, None, key);
      FedLast(queue, files, Some(alias), key);
    }
  }

  lemma FedLast(queue: seq<Read>, files: map<string, Pairs>, alias: Option<string>, key: string)
    requires queue != [] && queue[|queue| - 1].path in files
    ensures var last, before := queue[|queue| - 1], Fed(queue[..|queue| - 1], files, alias);
            LastValue(Fed(queue, files, alias), key)
            == if last.alias == alias then Or(LastValue(files[last.path], key), LastValue(before, key))
               else LastValue(before, key)
  {
    var last, before := queue[|queue| - 1], Fed(queue[..|queue| - 1], files, alias);
    if last.alias == alias {
      LastValueJoin(before, files[last.path], key);
    } else {
      assert before + [] == before;
    }
  }

  /**
   A host's variable has the last value that the files for this host give it, and without one the last
   value that the files for every host give it, in the order of the `@secrets` lines.
   */
  lemma EffectiveValue(queue: seq<Read>, files: map<string, Pairs>, min: nat, alias: string, key: string)
    requires AllRead(queue, files, min).Done? && key != SECRET_KEYS_VAR
    ensures Lookup(EnvFor(AllRead(queue, files, min).progress, alias), key)
         == Or(LastValue(Fed(queue, files, Some(alias)), key), LastValue(Fed(queue, files, None), key))
  {
    var p := AllRead(queue, files, min).progress;
    ProgressReads(queue, files, min, alias, key);
    var list := if p.keys == [] then [] else [(SECRET_KEYS_VAR, Join(p.keys, " "))];
    LookupJoin(p.shared, list, key);
    OverlayReads(SharedEnv(p), PairsOf(p, alias), key);
  }

  // The list of keys.

  ghost predicate Named(files: map<string, Pairs>) { forall path :: path in files ==> WordKeys(files[path]) }

  /** No file assigns the list itself. */
  ghost predicate Unassigned(files: map<string, Pairs>) {
    forall path :: path in files ==> !HasKey(files[path], SECRET_KEYS_VAR)
  }

  lemma {:induction false} LastWinsNamed(before: Pairs, pairs: Pairs, key: string)
    requires WordKeys(before) && WordKeys(pairs)
    ensures WordKeys(LastWins(before, pairs))
    ensures HasKey(LastWins(before, pairs), key) <==> HasKey(before, key) || HasKey(pairs, key)
  {
    NoKeyNoValue(before, key);
    NoKeyNoValue(pairs, key);
    NoKeyNoValue(LastWins(before, pairs), key);
    LastWinsReads(before, pairs, key);
    LastWinsWords(before, pairs);
  }

  lemma {:induction false} WithoutWords(pairs: Pairs, key: string)
    requires WordKeys(pairs)
    ensures WordKeys(Without(pairs, key))
  {
    if pairs != [] {
      WithoutWords(pairs[..|pairs| - 1], key);
    }
  }

  lemma {:induction false} LastWinsWords(before: Pairs, pairs: Pairs)
    requires WordKeys(before) && WordKeys(pairs)
    ensures WordKeys(LastWins(before, pairs))
  {
    if pairs != [] {
      LastWinsWords(before, pairs[..|pairs| - 1]);
      WithoutWords(LastWins(before, pairs[..|pairs| - 1]), pairs[|pairs| - 1].0);
    }
  }

  /** The state of the lists: keys are words, listed once, and listed exactly when read. */
  ghost predicate Listed(p: Progress, queue: seq<Read>, files: map<string, Pairs>, alias: string, key: string) {
    && AllWords(p.keys) && Distinct(p.keys) && WordKeys(PairsOf(p, alias))
    && (key in p.keys <==> HasKey(Fed(queue, files, None), key))
  }

  lemma HasKeyJoin(a: Pairs, b: Pairs, key: string)
    ensures HasKey(a + b, key) <==> HasKey(a, key) || HasKey(b, key)
  {
    NoKeyNoValue(a, key);
    NoKeyNoValue(b, key);
    NoKeyNoValue(a + b, key);
    LastValueJoin(a, b, key);
  }

  lemma {:induction false} ListedHolds(queue: seq<Read>, files: map<string, Pairs>, min: nat, alias: string,
                                       key: string)
    requires AllRead(queue, files, min).Done? && Named(files)
    ensures Listed(AllRead(queue, files, min).progress, queue, files, alias, key)
  {
    if queue != [] {
      var init, last := queue[..|queue| - 1], queue[|queue| - 1];
      Reading(queue, files, min);
      ListedHolds(init, files, min, alias, key);
      var p, pairs := AllRead(init, files, min).progress, files[last.path];
      LastWinsNamed([], pairs, key);
      AddAllHolds(p.keys, LastWins([], pairs), key);
      AddAllWords(p.keys, LastWins([], pairs));
      HasKeyJoin(Fed(init, files, None), pairs, key);
      assert Fed(init, files, None) + [] == Fed(init, files, None);
    }
  }

  /** The value that a file gives the list itself: the host's files come first. */
  function Assigned(queue: seq<Read>, files: map<string, Pairs>, alias: string): Option<string> {
    Or(LastValue(Fed(queue, files, Some(alias)), SECRET_KEYS_VAR), LastValue(Fed(queue, files, None), SECRET_KEYS_VAR))
  }

  /**
   The exported list holds exactly the keys of the host's files and, unless a file assigns the list, those of
   the shared files, each once, so a credential store is told of every value the host gets and of no other. A
   value that a file assigns to the list stands for the shared keys.
   */
  lemma ExportedList(queue: seq<Read>, files: map<string, Pairs>, min: nat, alias: string, key: string)
    requires AllRead(queue, files, min).Done? && Named(files)
    ensures var list := ListIn(EnvFor(AllRead(queue, files, min).progress, alias));
            var given := Assigned(queue, files, alias);
            && (given.None? ==> Distinct(list))
            && (key in list <==>
                  HasKey(Fed(queue, files, Some(alias)), key)
                  || if given.Some? then key in SplitBlank("", given.value) else HasKey(Fed(queue, files, None), key))
  {
    var p := AllRead(queue, files, min).progress;
    ListedHolds(queue, files, min, alias, key);
    ListReadsBack(p.keys);
    SharedList(queue, files, min, alias);
    PairsKey(queue, files, min, alias, key);
    ProgressReads(queue, files, min, alias, SECRET_KEYS_VAR);
    if alias in p.perHost {
      OverlayList(SharedEnv(p), p.perHost[alias], key);
    } else {
      assert !HasKey(PairsOf(p, alias), key) && LastValue(PairsOf(p, alias), SECRET_KEYS_VAR) == None;
    }
  }

  lemma PairsKey(queue: seq<Read>, files: map<string, Pairs>, min: nat, alias: string, key: string)
    requires AllRead(queue, files, min).Done?
    ensures HasKey(PairsOf(AllRead(queue, files, min).progress, alias), key)
        <==> HasKey(Fed(queue, files, Some(alias)), key)
  {
    ProgressReads(queue, files, min, alias, key);
    NoKeyNoValue(PairsOf(AllRead(queue, files, min).progress, alias), key);
    NoKeyNoValue(Fed(queue, files, Some(alias)), key);
  }

  lemma {:induction false} FedNamed(queue: seq<Read>, files: map<string, Pairs>, alias: Option<string>)
    requires Unassigned(files)
    ensures !HasKey(Fed(queue, files, alias), SECRET_KEYS_VAR)
        && LastValue(Fed(queue, files, alias), SECRET_KEYS_VAR) == None
  {
    if queue != [] {
      var init, last := queue[..|queue| - 1], queue[|queue| - 1];
      FedNamed(init, files, alias);
      if last.alias == alias && last.path in files {
        HasKeyJoin(Fed(init, files, alias), files[last.path], SECRET_KEYS_VAR);
      }
    }
    NoKeyNoValue(Fed(queue, files, alias), SECRET_KEYS_VAR);
  }

  /** The shared list: a value that a file assigns to it hides the joined keys. */
  lemma SharedList(queue: seq<Read>, files: map<string, Pairs>, min: nat, alias: string)
    requires AllRead(queue, files, min).Done?
    ensures var p := AllRead(queue, files, min).progress;
            Lookup(SharedEnv(p), SECRET_KEYS_VAR)
            == Or(LastValue(Fed(queue, files, None), SECRET_KEYS_VAR),
                  if p.keys == [] then None else Some(Join(p.keys, " ")))
  {
    var p := AllRead(queue, files, min).progress;
    ProgressReads(queue, files, min, alias, SECRET_KEYS_VAR);
    if p.keys == [] {
      assert p.shared + [] == p.shared;
    } else {
      LookupJoin(p.shared, [(SECRET_KEYS_VAR, Join(p.keys, " "))], SECRET_KEYS_VAR);
    }
  }

  /**
   When a host is told of a list at all: some shared key was read, or a file was read for this very host,
   even one with no pair in it. In the second case alone the list can be empty, if no file assigns it.
   */
  lemma ListIsExported(queue: seq<Read>, files: map<string, Pairs>, min: nat, alias: string)
    requires AllRead(queue, files, min).Done? && Named(files)
    ensures var list := Lookup(EnvFor(AllRead(queue, files, min).progress, alias), SECRET_KEYS_VAR);
            list.Some? <==> (exists key :: HasKey(Fed(queue, files, None), key)) || HasFile(queue, alias)
    ensures Unassigned(files) ==>
              var list := Lookup(EnvFor(AllRead(queue, files, min).progress, alias), SECRET_KEYS_VAR);
              list == Some("")
              <==> Fed(queue, files, None) == [] && Fed(queue, files, Some(alias)) == [] && HasFile(queue, alias)
  {
    var p := AllRead(queue, files, min).progress;
    SharedList(queue, files, min, alias);
    KeysRead(queue, files, min, alias);
    HostRead(queue, files, min, alias);
    NoKeyNoValue(Fed(queue, files, None), SECRET_KEYS_VAR);
    if alias in p.perHost {
      var layered := Layered(SharedEnv(p), p.perHost[alias]);
      var all := AddAll(ListIn(layered), p.perHost[alias]);
      PutReads(layered, SECRET_KEYS_VAR, Join(all, " "), SECRET_KEYS_VAR);
      if Unassigned(files) {
        EmptyList(queue, files, min, alias);
      }
    } else {
      ListedHolds(queue, files, min, alias, "");
      JoinedEmpty(p.keys);
      if Unassigned(files) {
        FedNamed(queue, files, None);
      }
    }
  }

  ghost predicate HasFile(queue: seq<Read>, alias: string) {
    exists k :: 0 <= k < |queue| && queue[k].alias == Some(alias)
  }

  lemma JoinedEmpty(ws: seq<string>)
    requires AllWords(ws)
    ensures Join(ws, " ") == "" <==> ws == []
  {
    if ws != [] {
      assert IsOneWord(ws[0]);
    }
  }

  lemma KeysRead(queue: seq<Read>, files: map<string, Pairs>, min: nat, alias: string)
    requires AllRead(queue, files, min).Done? && Named(files)
    ensures AllRead(queue, files, min).progress.keys == [] <==> Fed(queue, files, None) == []
    ensures Fed(queue, files, None) == [] <==> !exists key :: HasKey(Fed(queue, files, None), key)
  {
    var keys, fed := AllRead(queue, files, min).progress.keys, Fed(queue, files, None);
    if keys != [] {
      ListedHolds(queue, files, min, alias, keys[0]);
    }
    if fed != [] {
      ListedHolds(queue, files, min, alias, fed[0].0);
      assert HasKey(fed, fed[0].0);
    }
  }

  lemma {:induction false} HostRead(queue: seq<Read>, files: map<string, Pairs>, min: nat, alias: string)
    requires AllRead(queue, files, min).Done?
    ensures alias in AllRead(queue, files, min).progress.perHost <==> HasFile(queue, alias)
  {
    if queue != [] {
      var init, last := queue[..|queue| - 1], queue[|queue| - 1];
      Reading(queue, files, min);
      HostRead(init, files, min, alias);
      if k :| 0 <= k < |init| && init[k].alias == Some(alias) {
        assert queue[k].alias == Some(alias);
      }
    }
  }

  lemma EmptyList(queue: seq<Read>, files: map<string, Pairs>, min: nat, alias: string)
    requires AllRead(queue, files, min).Done? && Named(files) && Unassigned(files)
    requires alias in AllRead(queue, files, min).progress.perHost
    ensures var p := AllRead(queue, files, min).progress;
            Join(AddAll(ListIn(Layered(SharedEnv(p), p.perHost[alias])), p.perHost[alias]), " ") == ""
            <==> Fed(queue, files, None) == [] && Fed(queue, files, Some(alias)) == []
  {
    var p := AllRead(queue, files, min).progress;
    var own, fed := p.perHost[alias], Fed(queue, files, Some(alias));
    UnassignedList(queue, files, min, alias);
    ListedHolds(queue, files, min, alias, "");
    AddAllWords(p.keys, own);
    JoinedEmpty(AddAll(p.keys, own));
    KeysRead(queue, files, min, alias);
    if own != [] {
      PairsKey(queue, files, min, alias, own[0].0);
      AddAllHolds(p.keys, own, own[0].0);
      assert HasKey(own, own[0].0);
    } else {
      if fed != [] {
        PairsKey(queue, files, min, alias, fed[0].0);
        assert HasKey(fed, fed[0].0);
      }
    }
    AddAllHolds(p.keys, own, "");
  }

  lemma UnassignedList(queue: seq<Read>, files: map<string, Pairs>, min: nat, alias: string)
    requires AllRead(queue, files, min).Done? && Named(files) && Unassigned(files)
    ensures var p := AllRead(queue, files, min).progress; ListIn(Layered(SharedEnv(p), PairsOf(p, alias))) == p.keys
  {
    var p := AllRead(queue, files, min).progress;
    SharedList(queue, files, min, alias);
    FedNamed(queue, files, None);
    FedNamed(queue, files, Some(alias));
    ProgressReads(queue, files, min, alias, SECRET_KEYS_VAR);
    LayeredReads(SharedEnv(p), PairsOf(p, alias), SECRET_KEYS_VAR);
    ListedHolds(queue, files, min, alias, "");
    ListReadsBack(p.keys);
  }

  // Which values are registered.

  function FedAll(queue: seq<Read>, files: map<string, Pairs>): Pairs {
    if queue == [] then []
    else
      var last := queue[|queue| - 1];
      FedAll(queue[..|queue| - 1], files) + if last.path in files then files[last.path] else []
  }

  predicate HasValue(pairs: Pairs, value: string) { exists k :: 0 <= k < |pairs| && pairs[k].1 == value }

  /** The value that is remembered for a key in the narrow rules: the last one that was no new long value. */
  function LastShort(min: nat, fed: Pairs, key: string): Option<string> {
    if fed == [] then None
    else
      var init := fed[..|fed| - 1];
      var (k, v) := fed[|fed| - 1];
      if k == key && v != "" && (|v| < min || HasValue(init, v)) then Some(v) else LastShort(min, init, key)
  }

  lemma {:induction false} WithoutHas(pairs: Pairs, key: string, pair: (string, string))
    ensures pair in Without(pairs, key) <==> pair in pairs && pair.0 != key
  {
    if pairs != [] {
      WithoutHas(pairs[..|pairs| - 1], key, pair);
      assert pairs == pairs[..|pairs| - 1] + [pairs[|pairs| - 1]];
    }
  }

  lemma {:induction false} RegistryHolds(min: nat, fed: Pairs, key: string, value: string)
    ensures var r := RegisteredAll(Registry([], []), min, fed);
            && (value in r.masks <==> min <= |value| && HasValue(fed, value))
            && ((key, value) in r.shorts <==> LastShort(min, fed, key) == Some(value))
  {
    if fed != [] {
      var init, last := fed[..|fed| - 1], fed[|fed| - 1];
      RegistryHolds(min, init, key, value);
      RegistryHolds(min, init, key, last.1);
      HasValueLast(init, last, value);
      assert fed == init + [last];
      WithoutHas(RegisteredAll(Registry([], []), min, init).shorts, last.0, (key, value));
    }
  }

  lemma HasValueLast(init: Pairs, last: (string, string), value: string)
    ensures HasValue(init + [last], value) <==> HasValue(init, value) || last.1 == value
  {
    if HasValue(init, value) {
      var k :| 0 <= k < |init| && init[k].1 == value;
      assert (init + [last])[k].1 == value;
    }
    assert (init + [last])[|init|] == last;
  }

  lemma {:induction false} RegisteredJoin(r: Registry, min: nat, a: Pairs, b: Pairs)
    ensures RegisteredAll(r, min, a + b) == RegisteredAll(RegisteredAll(r, min, a), min, b)
  {
    if b == [] {
      assert a + b == a;
    } else {
      assert (a + b)[..|a + b| - 1] == a + b[..|b| - 1];
      RegisteredJoin(r, min, a, b[..|b| - 1]);
    }
  }

  lemma {:induction false} RegistryOf(queue: seq<Read>, files: map<string, Pairs>, min: nat)
    requires AllRead(queue, files, min).Done?
    ensures AllRead(queue, files, min).progress.registry == RegisteredAll(Registry([], []), min, FedAll(queue, files))
  {
    if queue != [] {
      var init, last := queue[..|queue| - 1], queue[|queue| - 1];
      Reading(queue, files, min);
      RegistryOf(init, files, min);
      RegisteredJoin(Registry([], []), min, FedAll(init, files), files[last.path]);
    }
  }

  lemma {:induction false} FedWithin(queue: seq<Read>, files: map<string, Pairs>, alias: Option<string>,
                                     pair: (string, string))
    requires pair in Fed(queue, files, alias)
    ensures pair in FedAll(queue, files)
  {
    if queue != [] {
      var init := queue[..|queue| - 1];
      if pair in Fed(init, files, alias) {
        FedWithin(init, files, alias, pair);
      }
    }
  }

  lemma {:induction false} LastValueIn(pairs: Pairs, key: string, value: string)
    requires LastValue(pairs, key) == Some(value)
    ensures (key, value) in pairs
  {
    if pairs[|pairs| - 1].0 != key {
      LastValueIn(pairs[..|pairs| - 1], key, value);
    }
  }

  ghost predicate IsRegistered(r: Registry, value: string) { value in r.masks || exists k :: (k, value) in r.shorts }

  /**
   A value that a host's steps get is known to the masker exactly when it is long, or is the last short
   value that the files gave some key: the narrow rules remember one value per key for all hosts.
   */
  lemma ExportedIsRegistered(queue: seq<Read>, files: map<string, Pairs>, min: nat, alias: string, key: string,
                             value: string)
    requires AllRead(queue, files, min).Done? && key != SECRET_KEYS_VAR
    requires Lookup(EnvFor(AllRead(queue, files, min).progress, alias), key) == Some(value)
    ensures IsRegistered(AllRead(queue, files, min).progress.registry, value)
            <==> min <= |value| || exists k :: LastShort(min, FedAll(queue, files), k) == Some(value)
  {
    EffectiveValue(queue, files, min, alias, key);
    var from := if LastValue(Fed(queue, files, Some(alias)), key).Some? then Some(alias) else None;
    LastValueIn(Fed(queue, files, from), key, value);
    FedWithin(queue, files, from, (key, value));
    RegistryOf(queue, files, min);
    FedIsRegistered(min, FedAll(queue, files), key, value);
  }

  lemma FedIsRegistered(min: nat, fed: Pairs, key: string, value: string)
    requires (key, value) in fed
    ensures IsRegistered(RegisteredAll(Registry([], []), min, fed), value)
            <==> min <= |value| || exists k :: LastShort(min, fed, k) == Some(value)
  {
    var n :| 0 <= n < |fed| && fed[n] == (key, value);
    assert HasValue(fed, value);
    var r := RegisteredAll(Registry([], []), min, fed);
    RegistryHolds(min, fed, key, value);
    if k :| (k, value) in r.shorts {
      RegistryHolds(min, fed, k, value);
      assert LastShort(min, fed, k) == Some(value);
    }
    if k :| LastShort(min, fed, k) == Some(value) {
      RegistryHolds(min, fed, k, value);
      assert (k, value) in r.shorts;
    }
  }

  lemma OneKeyTwoValues(min: nat, key: string, x: string, y: string)
    requires x != y && x != "" && y != "" && |x| < min && |y| < min
    ensures forall k :: LastShort(min, [(key, x), (key, y)], k) == if k == key then Some(y) else None
  {
    var one: Pairs := [(key, x)];
    var both: Pairs := [(key, x), (key, y)];
    assert both[..1] == one && one[..0] == [];
    forall k ensures LastShort(min, both, k) == if k == key then Some(y) else None {
      assert LastShort(min, one, k) == if k == key then Some(x) else None;
    }
  }

  /** Two hosts with their own short value under one key: the first host's value is not registered at all. */
  lemma SecondHostForgetsFirst(file: string, a: string, b: string, key: string, x: string, y: string, min: nat)
    requires x != y && x != "" && y != "" && |x| < min && |y| < min
    requires a != b && PathFor(file, a) != PathFor(file, b) && key != SECRET_KEYS_VAR
    ensures var files := map[PathFor(file, a) := [(key, x)], PathFor(file, b) := [(key, y)]];
            var result := AllRead(HostReads(file, [a, b]), files, min);
            && result.Done? && Lookup(EnvFor(result.progress, a), key) == Some(x)
            && !IsRegistered(result.progress.registry, x)
  {
    var files := map[PathFor(file, a) := [(key, x)], PathFor(file, b) := [(key, y)]];
    var first, second := Read(PathFor(file, a), Some(a)), Read(PathFor(file, b), Some(b));
    assert [a, b][..1] == [a] && [a][..0] == [];
    assert HostReads(file, []) + [first] == [first];
    assert HostReads(file, [a]) == [first];
    assert [a, b][1] == b;
    assert HostReads(file, [a, b]) == [first] + [second];
    ReadOne([], files, min, first);
    ReadOne([first], files, min, second);
    assert [] + [first] == [first];
    var queue := [first] + [second];
    assert queue[..1] == [first] && [first][..0] == [];
    assert Fed([first], files, Some(a)) == [(key, x)];
    assert Fed(queue, files, Some(a)) == [(key, x)];
    assert FedAll([first], files) == [(key, x)];
    assert FedAll(queue, files) == [(key, x), (key, y)];
    OneKeyTwoValues(min, key, x, y);
    EffectiveValue(queue, files, min, a, key);
    ExportedIsRegistered(queue, files, min, a, key, x);
  }
}
