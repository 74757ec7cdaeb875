/**
 The output sink: host lines are redacted by one masker per host and stream, and either printed as they
 come or kept per host until the host has finished.
 */
module GroupedOutput {
  import opened Text
  import opened Masker

  datatype Stream = Stdout | Stderr

  type Key = (string, Stream)

  datatype OutLine = OutLine(host: string, stream: Stream, text: string)

  datatype Buffer = Buffer(order: seq<string>, lines: map<string, seq<OutLine>>)

  /** Every buffered host is in the order once, and its lines are its own. */
  ghost predicate WellFormed(b: Buffer) {
    && Distinct(b.order)
    && (forall h :: h in b.order <==> h in b.lines)
    && (forall h, k :: h in b.lines && 0 <= k < |b.lines[h]| ==> b.lines[h][k].host == h)
  }

  function LinesOf(b: Buffer, host: string): seq<OutLine> {
    if host in b.lines then b.lines[host] else []
  }

  function Pushed(b: Buffer, host: string, line: OutLine): Buffer {
    Buffer(if host in b.lines then b.order else b.order + [host], b.lines[host := LinesOf(b, host) + [line]])
  }

  function Without(order: seq<string>, host: string): (r: seq<string>)
    ensures forall h :: h in r <==> h in order && h != host
    ensures Distinct(order) ==> Distinct(r)
  {
    if order == [] then []
    else
      var last := order[|order| - 1];
      assert last !in order[..|order| - 1] || !Distinct(order);
      assert order == order[..|order| - 1] + [last];
      Without(order[..|order| - 1], host) + if last == host then [] else [last]
  }

  function Removed(b: Buffer, host: string): Buffer { Buffer(Without(b.order, host), b.lines - {host}) }

  lemma PushedWellFormed(b: Buffer, line: OutLine)
    requires WellFormed(b)
    ensures WellFormed(Pushed(b, line.host, line))
  {
    var p := Pushed(b, line.host, line);
    forall h | h in p.lines ensures forall k :: 0 <= k < |p.lines[h]| ==> p.lines[h][k].host == h {
    }
  }

  lemma RemovedWellFormed(b: Buffer, host: string)
    requires WellFormed(b)
    ensures WellFormed(Removed(b, host))
  {
  }

  /** The lines of the hosts in `order`, one block per host. */
  function Blocks(order: seq<string>, lines: map<string, seq<OutLine>>): seq<seq<OutLine>> {
    if order == [] then []
    else
      var last := order[|order| - 1];
      Blocks(order[..|order| - 1], lines) + if last in lines then [lines[last]] else []
  }

  function Flat(blocks: seq<seq<OutLine>>): seq<OutLine> {
    if blocks == [] then [] else Flat(blocks[..|blocks| - 1]) + blocks[|blocks| - 1]
  }

  /** The lines of the hosts from position i on. */
  ghost function Rest(hosts: seq<string>, lines: map<string, seq<OutLine>>, i: nat): map<string, seq<OutLine>>
    requires i <= |hosts|
  {
    map h | h in lines && h in hosts[i..] :: lines[h]
  }

  lemma RestEnds(hosts: seq<string>, lines: map<string, seq<OutLine>>)
    requires WellFormed(Buffer(hosts, lines))
    ensures Rest(hosts, lines, 0) == lines && Rest(hosts, lines, |hosts|) == map[]
  {
    assert hosts[0..] == hosts && hosts[|hosts|..] == [];
  }

  lemma RestStep(hosts: seq<string>, lines: map<string, seq<OutLine>>, i: nat)
    requires Distinct(hosts) && i < |hosts|
    ensures hosts[i] in Rest(hosts, lines, i) <==> hosts[i] in lines
    ensures hosts[i] in lines ==> Rest(hosts, lines, i)[hosts[i]] == lines[hosts[i]]
    ensures Rest(hosts, lines, i) - {hosts[i]} == Rest(hosts, lines, i + 1)
    ensures hosts[i] !in lines ==> Rest(hosts, lines, i) == Rest(hosts, lines, i + 1)
    ensures Blocks(hosts[..i + 1], lines)
         == Blocks(hosts[..i], lines) + if hosts[i] in lines then [lines[hosts[i]]] else []
  {
    assert hosts[i..] == [hosts[i]] + hosts[i + 1..];
    BlocksStep(hosts, lines, i);
  }

  lemma BlocksStep(hosts: seq<string>, lines: map<string, seq<OutLine>>, i: nat)
    requires i < |hosts|
    ensures Blocks(hosts[..i + 1], lines)
         == Blocks(hosts[..i], lines) + if hosts[i] in lines then [lines[hosts[i]]] else []
  {
    assert hosts[..i + 1][..i] == hosts[..i];
  }

  class GroupedBuffer {
    var order: seq<string>
    var lines: map<string, seq<OutLine>>

    ghost function View(): Buffer
      reads this
    {
      Buffer(order, lines)
    }

    constructor ()
      ensures View() == Buffer([], map[])
    {
      order, lines := [], map[];
    }

    method Push(host: string, line: OutLine)
      modifies this
      ensures View() == Pushed(old(View()), host, line)
    {
      if host !in lines {
        order := order + [host];
      }
      var mine := if host in lines then lines[host] else [];
      lines := lines[host := mine + [line]];
    }

    /** Take the lines of one host, removing it from the buffer. */
    method TakeHost(host: string) returns (taken: seq<OutLine>)
      modifies this
      ensures taken == LinesOf(old(View()), host) && View() == Removed(old(View()), host)
    {
      taken := if host in lines then lines[host] else [];
      order := Without(order, host);
      lines := lines - {host};
    }

    /** Take every host's lines, in first-seen order. */
    method TakeAll() returns (blocks: seq<seq<OutLine>>)
      requires WellFormed(View())
      modifies this
      ensures blocks == Blocks(old(order), old(lines)) && View() == Buffer([], map[])
    {
      blocks := [];
      var hosts := order;
      RestEnds(hosts, lines);
      order := [];
      for i := 0 to |hosts|
        invariant order == [] && lines == Rest(hosts, old(lines), i)
        invariant blocks == Blocks(hosts[..i], old(lines))
      {
        RestStep(hosts, old(lines), i);
        var host := hosts[i];
        if host in lines {
          blocks := blocks + [lines[host]];
          lines := lines - {host};
        }
      }
      assert hosts[..|hosts|] == hosts;
    }
  }

  // The sink.

  /** What happens to the sink: a line of output, the end of a host, a flush, a new set of secret values. */
  datatype Event =
    | Line(host: string, stream: Stream, text: string)
    | Finished(host: string)
    | FlushAll
    | Secrets(masks: seq<string>, shorts: seq<(string, string)>)

  datatype Sink = Sink(masks: seq<string>, shorts: seq<(string, string)>, pending: map<Key, seq<Pending>>,
                       buffer: Buffer, emitted: seq<OutLine>)

  function PendingOf(s: Sink, key: Key): seq<Pending> { if key in s.pending then s.pending[key] else [] }

  ghost function MaskedLine(s: Sink, e: Event): OutLine
    requires e.Line?
  {
    OutLine(e.host, e.stream, Redacted(s.masks, s.shorts, PendingOf(s, (e.host, e.stream)), e.text))
  }

  ghost function Masked(s: Sink, e: Event): Sink
    requires e.Line?
  {
    var key := (e.host, e.stream);
    s.(pending := s.pending[key := NextPending(s.masks, PendingOf(s, key), e.text)])
  }

  ghost function Step(grouped: bool, s: Sink, e: Event): Sink {
    match e
    case Line(host, _, _) =>
      if grouped then Masked(s, e).(buffer := Pushed(s.buffer, host, MaskedLine(s, e)))
      else Masked(s, e).(emitted := s.emitted + [MaskedLine(s, e)])
    case Finished(host) =>
      if grouped then s.(buffer := Removed(s.buffer, host), emitted := s.emitted + LinesOf(s.buffer, host)) else s
    case FlushAll =>
      if grouped
      then s.(buffer := Buffer([], map[]), emitted := s.emitted + Flat(Blocks(s.buffer.order, s.buffer.lines)))
      else s
    case Secrets(masks, shorts) => s.(masks := masks, shorts := shorts, pending := map[])
  }

  lemma UpdateTwice<K, V>(m: map<K, V>, k: K, a: V, b: V)
    ensures m[k := a][k := b] == m[k := b]
  {
  }

  class Ui {
    const grouped: bool
    const buffer: GroupedBuffer
    var masks: seq<string>
    var shorts: seq<(string, string)>
    var maskers: map<Key, SecretMasker>
    var emitted: seq<OutLine>

    ghost var pending: map<Key, seq<Pending>>
    ghost var owned: set<SecretMasker>

    /** Each masker belongs to one host and stream alone, and works with the values registered now. */
    ghost predicate MaskersValid()
      reads this`maskers, this`pending, this`owned, this`masks, this`shorts, owned
    {
      && pending.Keys == maskers.Keys
      && (forall k :: k in maskers ==>
            maskers[k] in owned && OwnMasker(maskers[k], masks, shorts) && maskers[k].pending == pending[k])
      && (forall k, l :: k in maskers && l in maskers && k != l ==> maskers[k] != maskers[l])
    }

    ghost predicate Valid()
      reads this, buffer, owned
    {
      MaskersValid() && WellFormed(buffer.View())
    }

    static ghost predicate OwnMasker(m: SecretMasker, masks: seq<string>, shorts: seq<(string, string)>) {
      m.Valid() && m.masks == masks && m.shorts == shorts
    }

    ghost function View(): Sink
      reads this, buffer
    {
      Sink(masks, shorts, pending, buffer.View(), emitted)
    }

    constructor (grouped: bool, masks: seq<string>, shorts: seq<(string, string)>)
      ensures Valid() && fresh(buffer) && this.grouped == grouped
      ensures View() == Sink(masks, shorts, map[], Buffer([], map[]), [])
    {
      this.grouped, this.masks, this.shorts := grouped, masks, shorts;
      maskers, emitted, pending, owned := map[], [], map[], {};
      buffer := new GroupedBuffer();
    }

    /** Install another set of values; maskers that hold the old set are dropped. */
    method SetSecretValues(masks: seq<string>, shorts: seq<(string, string)>)
      requires Valid()
      modifies this
      ensures Valid() && View() == Step(grouped, old(View()), Secrets(masks, shorts))
    {
      this.masks, this.shorts := masks, shorts;
      maskers, pending, owned := map[], map[], {};
    }

    /** The masker for a host and stream, made when it is first asked for. */
    method MaskerFor(key: Key) returns (masker: SecretMasker)
      requires MaskersValid()
      modifies this`maskers, this`owned, this`pending
      ensures MaskersValid() && fresh(owned - old(owned))
      ensures key in maskers && maskers[key] == masker
      ensures masker.masks == masks && masker.shorts == shorts && masker.pending == PendingOf(old(View()), key)
      ensures pending == old(pending)[key := masker.pending]
    {
      if key !in maskers {
        masker := new SecretMasker(masks, shorts);
        maskers := maskers[key := masker];
        pending, owned := pending[key := []], owned + {masker};
      } else {
        masker := maskers[key];
      }
    }

    method Redact(masker: SecretMasker, key: Key, line: string) returns (out: string)
      requires MaskersValid() && key in maskers && maskers[key] == masker
      modifies this`pending, masker`pending
      ensures MaskersValid()
      ensures out == Redacted(masks, shorts, old(pending)[key], line)
      ensures pending == old(pending)[key := NextPending(masks, old(pending)[key], line)]
    {
      out := masker.RedactLine(line);
      pending := pending[key := masker.pending];
    }

    /** Redact one line of host output with the masker for this host and stream. */
    method MaskHostLine(host: string, stream: Stream, line: string) returns (out: string)
      requires MaskersValid()
      modifies this`maskers, this`owned, this`pending, owned
      ensures MaskersValid() && fresh(owned - old(owned))
      ensures out == Redacted(masks, shorts, PendingOf(old(View()), (host, stream)), line)
      ensures pending == Masked(old(View()), Line(host, stream, line)).pending
    {
      var key := (host, stream);
      var masker := MaskerFor(key);
      out := Redact(masker, key, line);
      UpdateTwice(old(pending), key, PendingOf(old(View()), key), pending[key]);
    }

    /** A line from a host: printed at once, or buffered. */
    method HostLine(host: string, stream: Stream, line: string)
      requires Valid()
      modifies this`maskers, this`owned, this`pending, this`emitted, buffer, owned
      ensures Valid() && fresh(owned - old(owned))
      ensures View() == Step(grouped, old(View()), Line(host, stream, line))
    {
      var text := MaskHostLine(host, stream, line);
      var masked := OutLine(host, stream, text);
      PushedWellFormed(buffer.View(), masked);
      if grouped {
        buffer.Push(host, masked);
      } else {
        emitted := emitted + [masked];
      }
    }

    /** Print a block of lines. */
    method EmitLines(lines: seq<OutLine>)
      modifies this`emitted
      ensures emitted == old(emitted) + lines
    {
      for i := 0 to |lines|
        invariant emitted == old(emitted) + lines[..i]
      {
        emitted := emitted + [lines[i]];
      }
    }

    method EmitBlocks(blocks: seq<seq<OutLine>>)
      modifies this`emitted
      ensures emitted == old(emitted) + Flat(blocks)
    {
      for i := 0 to |blocks|
        invariant emitted == old(emitted) + Flat(blocks[..i])
      {
        assert blocks[..i + 1][..i] == blocks[..i];
        EmitLines(blocks[i]);
      }
      assert blocks[..|blocks|] == blocks;
    }

    /** The host has finished: print its block. */
    method HostFinished(host: string)
      requires Valid()
      modifies this`emitted, buffer
      ensures Valid() && View() == Step(grouped, old(View()), Finished(host))
    {
      if grouped {
        RemovedWellFormed(buffer.View(), host);
        var lines := buffer.TakeHost(host);
        EmitLines(lines);
      }
    }

    /** Print every remaining block. */
    method FlushGrouped()
      requires Valid()
      modifies this`emitted, buffer
      ensures Valid() && View() == Step(grouped, old(View()), FlushAll)
    {
      if grouped {
        var hosts := buffer.TakeAll();
        EmitBlocks(hosts);
      }
    }
  }
}
