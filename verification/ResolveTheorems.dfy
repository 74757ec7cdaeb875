/** From `@secrets` lines to files and values. */
module ResolveTheorems {
  // Which files are read for which hosts, and what a host's environment gets from them, stated on entries,
  // hosts and files alone.

  import opened Text
  import opened Masking
  import opened Secrets
  import opened SecretsTheorems

  // The files.

  /** The placeholder begins with the only brace of its kind in it. */
  lemma MarkBegins(text: string, q: nat, at: nat)
    requires OccursAt(HOST_MARK, text, at) && q < at < q + |HOST_MARK|
    ensures !OccursAt(HOST_MARK, text, q)
  {
    assert text[at + 0] == HOST_MARK[0] == '{';
    assert HOST_MARK[at - q] != '{';
    NotThere(HOST_MARK, text, q, at - q);
  }

  lemma FirstMark(piece: string, rest: string)
    requires !Occurs(HOST_MARK, piece)
    ensures FindFrom(piece + HOST_MARK + rest, HOST_MARK, 0) == Some(|piece|)
  {
    var text := piece + HOST_MARK + rest;
    FindsFirst(text, HOST_MARK, 0);
    assert OccursAt(HOST_MARK, text, |piece|);
    forall q: nat | q < |piece| ensures !OccursAt(HOST_MARK, text, q) {
      if q + |HOST_MARK| <= |piece| {
        NotInPiece(piece, HOST_MARK + rest, q);
        Assoc(piece, HOST_MARK, rest);
      } else {
        MarkBegins(text, q, |piece|);
      }
    }
  }

  lemma NotInPiece(piece: string, rest: string, q: nat)
    requires !Occurs(HOST_MARK, piece) && q + |HOST_MARK| <= |piece|
    ensures !OccursAt(HOST_MARK, piece + rest, q)
  {
    assert !OccursAt(HOST_MARK, piece, q);
    var k :| 0 <= k < |HOST_MARK| && HOST_MARK[k] != piece[q + k];
    assert (piece + rest)[q + k] == piece[q + k];
  }

  /** Every placeholder of a file name becomes the alias of the host, and every other byte stays. */
  lemma {:induction false} PathIsReplaced(pieces: seq<string>, alias: string)
    requires pieces != [] && forall k :: 0 <= k < |pieces| ==> !Occurs("{host}", pieces[k])
    ensures PathFor(Join(pieces, "{host}"), alias) == Join(pieces, alias)
    ensures PerHost(Join(pieces, "{host}")) <==> 1 < |pieces|
    decreases |pieces|
  {
    if |pieces| == 1 {
      FindsFirst(pieces[0], HOST_MARK, 0);
      assert FindFrom(pieces[0], HOST_MARK, 0) == None;
    } else {
      var rest := Join(pieces[1..], HOST_MARK);
      PathIsReplaced(pieces[1..], alias);
      FirstMark(pieces[0], rest);
      var text := pieces[0] + HOST_MARK + rest;
      assert text[..|pieces[0]|] == pieces[0] && text[|pieces[0]| + |HOST_MARK|..] == rest;
    }
  }

  /** An entry is for single hosts exactly when it holds a placeholder. */
  lemma PerHostIff(file: string)
    ensures PerHost(file) <==> Occurs(HOST_MARK, file)
  {
    FindsFirst(file, HOST_MARK, 0);
    if at :| OccursAt(HOST_MARK, file, at) {
      assert FindFrom(file, HOST_MARK, 0).Some?;
    }
  }

  lemma {:induction false} HostReadsAre(file: string, hosts: seq<string>)
    ensures |HostReads(file, hosts)| == |hosts|
    ensures forall k :: 0 <= k < |hosts| ==> HostReads(file, hosts)[k] == Read(PathFor(file, hosts[k]), Some(hosts[k]))
  {
    if hosts != [] {
      HostReadsAre(file, hosts[..|hosts| - 1]);
    }
  }

  /** What one `@secrets` line reads: a file for each host, in order, or one file for all of them. */
  lemma EntryReadsAre(file: string, hosts: seq<string>)
    ensures Occurs(HOST_MARK, file) ==>
              && |EntryReads(file, hosts)| == |hosts|
              && forall k :: 0 <= k < |hosts| ==>
                   EntryReads(file, hosts)[k] == Read(PathFor(file, hosts[k]), Some(hosts[k]))
    ensures !Occurs(HOST_MARK, file) ==> EntryReads(file, hosts) == [Read(file, None)]
  {
    PerHostIff(file);
    HostReadsAre(file, hosts);
  }

  /** The lines are read one after the other. */
  lemma {:induction false} ReadsJoin(a: seq<string>, b: seq<string>, hosts: seq<string>)
    ensures Reads(a + b, hosts) == Reads(a, hosts) + Reads(b, hosts)
  {
    if b == [] {
      assert a + b == a;
    } else {
      var init, last := b[..|b| - 1], b[|b| - 1];
      ReadsJoin(a, init, hosts);
      assert (a + b)[..|a + b| - 1] == a + init;
      Assoc(Reads(a, hosts), Reads(init, hosts), EntryReads(last, hosts));
    }
  }

  lemma OneEntry(file: string, hosts: seq<string>)
    ensures Reads([file], hosts) == EntryReads(file, hosts)
  {
    var none: seq<string> := [];
    assert [file][..0] == none && Reads(none, hosts) == [];
  }

  /** The files that have to be there, in the order they are read. */
  function Needed(entries: seq<string>, hosts: seq<string>): seq<string> {
    if entries == [] then []
    else Needed(entries[..|entries| - 1], hosts) + FilesOf(entries[|entries| - 1], hosts)
  }

  function FilesOf(file: string, hosts: seq<string>): seq<string> {
    if PerHost(file) then seq(|hosts|, k requires 0 <= k < |hosts| => PathFor(file, hosts[k])) else [file]
  }

  function PathsOf(queue: seq<Read>): seq<string> { seq(|queue|, k requires 0 <= k < |queue| => queue[k].path) }

  lemma EntryPaths(file: string, hosts: seq<string>)
    ensures PathsOf(EntryReads(file, hosts)) == FilesOf(file, hosts)
  {
    HostReadsAre(file, hosts);
  }

  lemma {:induction false} NeededAreRead(entries: seq<string>, hosts: seq<string>)
    ensures PathsOf(Reads(entries, hosts)) == Needed(entries, hosts)
  {
    if entries != [] {
      var init, last := entries[..|entries| - 1], entries[|entries| - 1];
      NeededAreRead(init, hosts);
      EntryPaths(last, hosts);
      PathsJoin(Reads(init, hosts), EntryReads(last, hosts));
    }
  }

  lemma PathsJoin(a: seq<Read>, b: seq<Read>)
    ensures PathsOf(a + b) == PathsOf(a) + PathsOf(b)
  {
  }

  lemma {:induction false} QueueRead(queue: seq<Read>, files: map<string, Pairs>, min: nat)
    ensures AllRead(queue, files, min).Done? <==> forall k :: 0 <= k < |queue| ==> queue[k].path in files
    ensures AllRead(queue, files, min).Failed? ==>
              exists n :: 0 <= n < |queue| && FirstMissing(queue, files, AllRead(queue, files, min).path, n)
  {
    if queue != [] {
      var init := queue[..|queue| - 1];
      QueueRead(init, files, min);
      if AllRead(init, files, min).Failed? {
        var n :| 0 <= n < |init| && FirstMissing(init, files, AllRead(init, files, min).path, n);
        assert FirstMissing(queue, files, AllRead(queue, files, min).path, n);
        assert init[n] == queue[n];
      } else if queue[|queue| - 1].path !in files {
        assert FirstMissing(queue, files, queue[|queue| - 1].path, |queue| - 1);
      }
    }
  }

  predicate FirstMissing(queue: seq<Read>, files: map<string, Pairs>, path: string, n: nat) {
    && n < |queue| && queue[n].path == path && path !in files
    && forall k :: 0 <= k < n ==> queue[k].path in files
  }

  /** What `ResolveSecrets` returns. */
  ghost predicate Resolves(r: Resolution, entries: seq<string>, hosts: seq<string>, files: map<string, Pairs>, min: nat)
  {
    r == ResolutionOf(AllRead(Reads(entries, hosts), files, min))
  }

  /** The resolution succeeds exactly when every needed file is there, else it names the first that is not. */
  lemma ResolvedIff(r: Resolution, entries: seq<string>, hosts: seq<string>, files: map<string, Pairs>, min: nat)
    requires Resolves(r, entries, hosts, files, min)
    ensures r.Resolved? <==> forall k :: 0 <= k < |Needed(entries, hosts)| ==> Needed(entries, hosts)[k] in files
    ensures r.Unreadable? ==>
              exists n :: 0 <= n < |Needed(entries, hosts)| && Needed(entries, hosts)[n] == r.path && r.path !in files
                          && forall k :: 0 <= k < n ==> Needed(entries, hosts)[k] in files
  {
    var queue, needed := Reads(entries, hosts), Needed(entries, hosts);
    NeededAreRead(entries, hosts);
    QueueRead(queue, files, min);
    assert |queue| == |needed| && forall k :: 0 <= k < |queue| ==> queue[k].path == needed[k];
    if r.Unreadable? {
      var n :| 0 <= n < |queue| && FirstMissing(queue, files, r.path, n);
      assert needed[n] == r.path;
      assert forall k :: 0 <= k < n ==> needed[k] == queue[k].path;
    }
  }

  // The values.

  function Content(files: map<string, Pairs>, path: string): Pairs { if path in files then files[path] else [] }

  /** What the files for one host hold, line by line. */
  function OwnPairs(entries: seq<string>, files: map<string, Pairs>, alias: string): Pairs {
    if entries == [] then []
    else
      var last := entries[|entries| - 1];
      OwnPairs(entries[..|entries| - 1], files, alias)
      + if PerHost(last) then Content(files, PathFor(last, alias)) else []
  }

  /** What the files for every host hold, line by line. */
  function SharedPairs(entries: seq<string>, files: map<string, Pairs>): Pairs {
    if entries == [] then []
    else
      var last := entries[|entries| - 1];
      SharedPairs(entries[..|entries| - 1], files) + if PerHost(last) then [] else Content(files, last)
  }

  lemma {:induction false} FedJoin(a: seq<Read>, b: seq<Read>, files: map<string, Pairs>, alias: Option<string>)
    ensures Fed(a + b, files, alias) == Fed(a, files, alias) + Fed(b, files, alias)
  {
    if b == [] {
      assert a + b == a;
    } else {
      var last := b[|b| - 1];
      var own := if last.alias == alias && last.path in files then files[last.path] else [];
      FedJoin(a, b[..|b| - 1], files, alias);
      assert (a + b)[..|a + b| - 1] == a + b[..|b| - 1];
      Assoc(Fed(a, files, alias), Fed(b[..|b| - 1], files, alias), own);
    }
  }

  lemma {:induction false} HostFed(file: string, hosts: seq<string>, files: map<string, Pairs>, alias: string)
    requires Distinct(hosts)
    ensures Fed(HostReads(file, hosts), files, Some(alias))
         == if alias in hosts then Content(files, PathFor(file, alias)) else []
    ensures Fed(HostReads(file, hosts), files, None) == []
  {
    if hosts != [] {
      var init, last := hosts[..|hosts| - 1], hosts[|hosts| - 1];
      HostFed(file, init, files, alias);
      assert hosts == init + [last];
      var queue := HostReads(file, hosts);
      assert queue[..|queue| - 1] == HostReads(file, init);
    }
  }

  lemma SharedFed(file: string, files: map<string, Pairs>, alias: string)
    ensures Fed([Read(file, None)], files, None) == Content(files, file)
    ensures Fed([Read(file, None)], files, Some(alias)) == []
  {
    var none: seq<Read> := [];
    assert [Read(file, None)][..0] == none;
    assert Fed(none, files, None) == [] && Fed(none, files, Some(alias)) == [];
  }

  lemma {:induction false} FedIs(entries: seq<string>, hosts: seq<string>, files: map<string, Pairs>, alias: string)
    requires Distinct(hosts)
    ensures Fed(Reads(entries, hosts), files, Some(alias))
         == if alias in hosts then OwnPairs(entries, files, alias) else []
    ensures Fed(Reads(entries, hosts), files, None) == SharedPairs(entries, files)
  {
    if entries != [] {
      var init, last := entries[..|entries| - 1], entries[|entries| - 1];
      FedIs(init, hosts, files, alias);
      FedJoin(Reads(init, hosts), EntryReads(last, hosts), files, Some(alias));
      FedJoin(Reads(init, hosts), EntryReads(last, hosts), files, None);
      HostFed(last, hosts, files, alias);
      SharedFed(last, files, alias);
    }
  }

  /** The environment of a host's steps. */
  function HostEnv(r: Resolution, alias: string): Pairs
    requires r.Resolved?
  {
    if alias in r.perHost then Overlaid(r.shared, r.perHost[alias]) else r.shared
  }

  /**
   A host that is targeted has, for every variable, the last value of its own files, line by line, and without
   one the last value of the shared files; a host that is not targeted has the shared value.
   */
  lemma ResolvedValue(r: Resolution, entries: seq<string>, hosts: seq<string>, files: map<string, Pairs>, min: nat,
                      alias: string, key: string)
    requires Resolves(r, entries, hosts, files, min) && r.Resolved? && Distinct(hosts) && key != SECRET_KEYS_VAR
    ensures Lookup(HostEnv(r, alias), key)
         == Or(if alias in hosts then LastValue(OwnPairs(entries, files, alias), key) else None,
               LastValue(SharedPairs(entries, files), key))
  {
    EffectiveValue(Reads(entries, hosts), files, min, alias, key);
    FedIs(entries, hosts, files, alias);
  }

  /** The value that a file gives the list of keys itself. */
  function GivenList(entries: seq<string>, hosts: seq<string>, files: map<string, Pairs>, alias: string):
    Option<string>
  {
    Or(if alias in hosts then LastValue(OwnPairs(entries, files, alias), SECRET_KEYS_VAR) else None,
       LastValue(SharedPairs(entries, files), SECRET_KEYS_VAR))
  }

  /** The list that a targeted host is told of: its own keys and the shared keys, each once. */
  lemma ResolvedList(r: Resolution, entries: seq<string>, hosts: seq<string>, files: map<string, Pairs>, min: nat,
                     alias: string, key: string)
    requires Resolves(r, entries, hosts, files, min) && r.Resolved? && Distinct(hosts) && Named(files)
    ensures var list, given := ListIn(HostEnv(r, alias)), GivenList(entries, hosts, files, alias);
            && (given.None? ==> Distinct(list))
            && (key in list <==>
                  (alias in hosts && HasKey(OwnPairs(entries, files, alias), key))
                  || if given.Some? then key in SplitBlank("", given.value)
                     else HasKey(SharedPairs(entries, files), key))
  {
    ExportedList(Reads(entries, hosts), files, min, alias, key);
    FedIs(entries, hosts, files, alias);
  }

  /** Every pair of every needed file, in the order of reading. */
  function PairsIn(paths: seq<string>, files: map<string, Pairs>): Pairs {
    if paths == [] then [] else PairsIn(paths[..|paths| - 1], files) + Content(files, paths[|paths| - 1])
  }

  lemma {:induction false} AllFed(queue: seq<Read>, paths: seq<string>, files: map<string, Pairs>)
    requires PathsOf(queue) == paths
    ensures FedAll(queue, files) == PairsIn(paths, files)
  {
    if queue != [] {
      assert paths[|paths| - 1] == queue[|queue| - 1].path;
      assert PathsOf(queue[..|queue| - 1]) == paths[..|paths| - 1];
      AllFed(queue[..|queue| - 1], paths[..|paths| - 1], files);
    }
  }

  /** A value that any needed file holds is registered exactly when it is long or the last short one of some key. */
  lemma ResolvedRegistry(r: Resolution, entries: seq<string>, hosts: seq<string>, files: map<string, Pairs>, min: nat,
                         key: string, value: string)
    requires Resolves(r, entries, hosts, files, min) && r.Resolved?
    requires (key, value) in PairsIn(Needed(entries, hosts), files)
    ensures IsRegistered(Registry(r.masks, r.shorts), value)
            <==> min <= |value| || exists k :: LastShort(min, PairsIn(Needed(entries, hosts), files), k) == Some(value)
  {
    NeededAreRead(entries, hosts);
    AllFed(Reads(entries, hosts), Needed(entries, hosts), files);
    RegistryOf(Reads(entries, hosts), files, min);
    FedIsRegistered(min, PairsIn(Needed(entries, hosts), files), key, value);
  }
}
