/** Concurrent writers of the packed array at the granularity of single byte reads and writes
    (solweig_core/bitplanes.py, `set_patch_window` under the unique-writer rule). */
module WriterSchedules {
  import opened PackedBits
  import opened ChunkOwnership

  /** One read-modify-write of one byte: what is written as a function of what was read. */
  datatype Op = Op(addr: Addr, act: bv8 -> bv8)

  type Program = seq<Op>

  ghost predicate Defined(prog: Program, m: Memory) {
    forall k | 0 <= k < |prog| :: prog[k].addr in m
  }

  ghost predicate Uses(prog: Program, a: Addr) {
    exists k :: 0 <= k < |prog| && prog[k].addr == a
  }

  // ---------------------------------------------------------------- one writer alone

  /** Whole operations, one after another. */
  function Exec(prog: Program, m: Memory): (x: Memory)
    requires forall k | 0 <= k < |prog| :: prog[k].addr in m
    ensures x.Keys == m.Keys
  {
    if prog == [] then m
    else
      var op := prog[|prog| - 1];
      var x := Exec(prog[..|prog| - 1], m);
      x[op.addr := op.act(x[op.addr])]
  }

  /** A writer leaves bytes it does not use alone. */
  lemma {:induction false} ExecFrame(prog: Program, m: Memory, a: Addr)
    requires Defined(prog, m) && a in m && !Uses(prog, a)
    ensures Exec(prog, m)[a] == m[a]
  {
    if prog != [] {
      var init := prog[..|prog| - 1];
      assert forall k | 0 <= k < |init| :: init[k] == prog[k];
      assert prog[|prog| - 1].addr != a;
      ExecFrame(init, m, a);
    }
  }

  /** What a writer does to a byte depends only on what that byte held. */
  lemma {:induction false} ExecAgrees(prog: Program, m: Memory, x: Memory, a: Addr)
    requires Defined(prog, m) && m.Keys == x.Keys && a in m && m[a] == x[a]
    ensures Exec(prog, m)[a] == Exec(prog, x)[a]
  {
    if prog != [] {
      ExecAgrees(prog[..|prog| - 1], m, x, a);
    }
  }

  /** The memory after the first k operations of a writer running alone. */
  ghost function After(prog: Program, m: Memory, k: nat): (x: Memory)
    requires Defined(prog, m) && k <= |prog|
    ensures x.Keys == m.Keys
  {
    Exec(prog[..k], m)
  }

  lemma AfterStep(prog: Program, m: Memory, k: nat)
    requires Defined(prog, m) && k < |prog|
    ensures var x := After(prog, m, k); After(prog, m, k + 1) == x[prog[k].addr := prog[k].act(x[prog[k].addr])]
  {
    assert prog[..k + 1][..k] == prog[..k];
  }

  /** A writer in the middle of its program: about to read the byte of its next operation, or
      holding what it read and about to write. */
  datatype Writer = Ready(done: nat) | Loaded(done: nat, byte: bv8)

  /** One half step of a writer: its new state and the memory. */
  function HalfStep(prog: Program, w: Writer, m: Memory): (r: (Writer, Memory))
    requires forall k | 0 <= k < |prog| :: prog[k].addr in m
    ensures r.1.Keys == m.Keys
  {
    if w.done >= |prog| then (w, m)
    else
      var op := prog[w.done];
      match w
      case Ready(k) => (Loaded(k, m[op.addr]), m)
      case Loaded(k, byte) => (Ready(k + 1), m[op.addr := op.act(byte)])
  }

  ghost predicate AgreeOn(prog: Program, m: Memory, x: Memory) {
    m.Keys == x.Keys && forall a | a in m && Uses(prog, a) :: m[a] == x[a]
  }

  // ---------------------------------------------------------------- interleavings

  /** No byte is used by two writers. */
  ghost predicate DisjointPrograms(progs: seq<Program>) {
    forall v, w, a | 0 <= v < |progs| && 0 <= w < |progs| && v != w :: !(Uses(progs[v], a) && Uses(progs[w], a))
  }

  ghost predicate AllDefined(progs: seq<Program>, m: Memory) {
    forall v | 0 <= v < |progs| :: Defined(progs[v], m)
  }

  datatype System = System(writers: seq<Writer>, mem: Memory)

  function Begin(progs: seq<Program>, m: Memory): System {
    System(seq(|progs|, _ => Ready(0)), m)
  }

  /** Writer v takes one half step. */
  ghost function Turn(progs: seq<Program>, s: System, v: nat): (t: System)
    requires v < |progs| == |s.writers| && AllDefined(progs, s.mem)
    ensures |t.writers| == |progs| && t.mem.Keys == s.mem.Keys
  {
    var (w, m) := HalfStep(progs[v], s.writers[v], s.mem);
    System(s.writers[v := w], m)
  }

  ghost function Interleave(progs: seq<Program>, m: Memory, schedule: seq<nat>): (s: System)
    requires AllDefined(progs, m) && forall k | 0 <= k < |schedule| :: schedule[k] < |progs|
    ensures |s.writers| == |progs| && s.mem.Keys == m.Keys
  {
    if schedule == [] then Begin(progs, m)
    else Turn(progs, Interleave(progs, m, schedule[..|schedule| - 1]), schedule[|schedule| - 1])
  }

  /** The bytes of a writer hold what they would hold had it run alone so far, and so does the
      byte it has read. */
  ghost predicate OnTrack(prog: Program, m: Memory, w: Writer, mem: Memory)
    requires Defined(prog, m)
  {
    && w.done <= |prog| && AgreeOn(prog, mem, After(prog, m, w.done))
    && (w.Loaded? ==> w.done < |prog| && w.byte == After(prog, m, w.done)[prog[w.done].addr])
  }

  ghost predicate AsIfAlone(progs: seq<Program>, m: Memory, s: System, v: nat)
    requires AllDefined(progs, m) && v < |progs| == |s.writers|
  {
    OnTrack(progs[v], m, s.writers[v], s.mem)
  }

  ghost predicate Isolated(progs: seq<Program>, m: Memory, s: System)
    requires AllDefined(progs, m) && |progs| == |s.writers|
  {
    && s.mem.Keys == m.Keys
    && (forall v | 0 <= v < |progs| :: AsIfAlone(progs, m, s, v))
    && forall a | a in m && (forall v | 0 <= v < |progs| :: !Uses(progs[v], a)) :: s.mem[a] == m[a]
  }

  lemma OwnStep(prog: Program, m: Memory, w: Writer, mem: Memory)
    requires Defined(prog, m) && m.Keys == mem.Keys && OnTrack(prog, m, w, mem)
    ensures OnTrack(prog, m, HalfStep(prog, w, mem).0, HalfStep(prog, w, mem).1)
  {
    if w.done < |prog| {
      assert Uses(prog, prog[w.done].addr);
      AfterStep(prog, m, w.done);
    }
  }

  lemma OtherTurn(progs: seq<Program>, m: Memory, s: System, v: nat, w: nat)
    requires AllDefined(progs, m) && v < |progs| == |s.writers| && w < |progs| && v != w
    requires DisjointPrograms(progs) && s.mem.Keys == m.Keys && AsIfAlone(progs, m, s, w)
    ensures AsIfAlone(progs, m, Turn(progs, s, v), w)
  {
    var t := Turn(progs, s, v);
    forall a | a in m && Uses(progs[w], a) ensures t.mem[a] == s.mem[a] {
      TurnFrame(progs, s, v, a);
    }
  }

  lemma TurnFrame(progs: seq<Program>, s: System, v: nat, a: Addr)
    requires v < |progs| == |s.writers| && AllDefined(progs, s.mem) && a in s.mem && !Uses(progs[v], a)
    ensures Turn(progs, s, v).mem[a] == s.mem[a]
  {
  }

  /** Isolation is kept by every half step of every interleaving. */
  lemma {:induction false} InterleavingIsIsolated(progs: seq<Program>, m: Memory, schedule: seq<nat>)
    requires AllDefined(progs, m) && DisjointPrograms(progs) && forall k | 0 <= k < |schedule| :: schedule[k] < |progs|
    ensures Isolated(progs, m, Interleave(progs, m, schedule))
  {
    if schedule != [] {
      var init, v := schedule[..|schedule| - 1], schedule[|schedule| - 1];
      InterleavingIsIsolated(progs, m, init);
      TurnKeepsIsolation(progs, m, Interleave(progs, m, init), v);
    }
  }

  lemma TurnKeepsIsolation(progs: seq<Program>, m: Memory, s: System, v: nat)
    requires AllDefined(progs, m) && DisjointPrograms(progs) && v < |progs| == |s.writers| && Isolated(progs, m, s)
    ensures Isolated(progs, m, Turn(progs, s, v))
  {
    forall w | 0 <= w < |progs| ensures AsIfAlone(progs, m, Turn(progs, s, v), w) {
      assert AsIfAlone(progs, m, s, w);
      if w == v {
        OwnStep(progs[v], m, s.writers[v], s.mem);
      } else {
        OtherTurn(progs, m, s, v, w);
      }
    }
    forall a | a in m && (forall w | 0 <= w < |progs| :: !Uses(progs[w], a)) ensures Turn(progs, s, v).mem[a] == m[a] {
      TurnFrame(progs, s, v, a);
    }
  }

  ghost predicate Complete(progs: seq<Program>, s: System)
    requires |progs| == |s.writers|
  {
    forall v | 0 <= v < |progs| :: s.writers[v] == Ready(|progs[v]|)
  }

  // ---------------------------------------------------------------- one after another

  /** Running whole writers in the given order. */
  ghost function OneByOne(progs: seq<Program>, m: Memory, order: seq<nat>): (x: Memory)
    requires AllDefined(progs, m) && forall k | 0 <= k < |order| :: order[k] < |progs|
    ensures x.Keys == m.Keys
  {
    if order == [] then m else Exec(progs[order[|order| - 1]], OneByOne(progs, m, order[..|order| - 1]))
  }

  /** Each writer occurs once. */
  ghost predicate EachOnce(progs: seq<Program>, order: seq<nat>) {
    && (forall k | 0 <= k < |order| :: order[k] < |progs|)
    && (forall k, l | 0 <= k < l < |order| :: order[k] != order[l])
    && (forall v: nat | v < |progs| :: v in order)
  }

  /** After a prefix of the order, the bytes of a writer that ran are as if it ran alone, and all
      other bytes are untouched. */
  lemma {:induction false} PrefixEffect(progs: seq<Program>, m: Memory, order: seq<nat>, a: Addr)
    requires AllDefined(progs, m) && DisjointPrograms(progs) && a in m
    requires (forall k | 0 <= k < |order| :: order[k] < |progs|) && (forall k, l | 0 <= k < l < |order| :: order[k] != order[l])
    ensures forall v: nat | v < |progs| && v in order && Uses(progs[v], a) :: OneByOne(progs, m, order)[a] == Exec(progs[v], m)[a]
    ensures (forall v: nat | v < |progs| && v in order :: !Uses(progs[v], a)) ==> OneByOne(progs, m, order)[a] == m[a]
  {
    if order != [] {
      var init, last := order[..|order| - 1], order[|order| - 1];
      assert order == init + [last];
      PrefixEffect(progs, m, init, a);
      LastWriterEffect(progs, m, init, last, a);
    }
  }

  lemma {:induction false} LastWriterEffect(progs: seq<Program>, m: Memory, init: seq<nat>, last: nat, a: Addr)
    requires AllDefined(progs, m) && DisjointPrograms(progs) && a in m && last < |progs| && last !in init
    requires (forall k | 0 <= k < |init| :: init[k] < |progs|) && (forall k, l | 0 <= k < l < |init| :: init[k] != init[l])
    ensures Exec(progs[last], OneByOne(progs, m, init))[a]
         == if Uses(progs[last], a) then Exec(progs[last], m)[a] else OneByOne(progs, m, init)[a]
  {
    var x := OneByOne(progs, m, init);
    if Uses(progs[last], a) {
      Untouched(progs, m, init, last, a);
      ExecAgrees(progs[last], m, x, a);
    } else {
      ExecFrame(progs[last], x, a);
    }
  }

  /** Writers in `order` do not touch the bytes of a writer outside it. */
  lemma {:induction false} Untouched(progs: seq<Program>, m: Memory, order: seq<nat>, v: nat, a: Addr)
    requires AllDefined(progs, m) && DisjointPrograms(progs) && a in m && v < |progs| && v !in order && Uses(progs[v], a)
    requires forall k | 0 <= k < |order| :: order[k] < |progs|
    ensures OneByOne(progs, m, order)[a] == m[a]
  {
    if order != [] {
      var init, last := order[..|order| - 1], order[|order| - 1];
      Untouched(progs, m, init, v, a);
      assert last != v && !Uses(progs[last], a);
      ExecFrame(progs[last], OneByOne(progs, m, init), a);
    }
  }

  /** No lost update: with disjoint writers every complete interleaving of byte reads and writes
      ends in the memory that running the writers one after another gives, in any order. */
  lemma NoLostUpdate(progs: seq<Program>, m: Memory, schedule: seq<nat>, order: seq<nat>)
    requires AllDefined(progs, m) && DisjointPrograms(progs) && forall k | 0 <= k < |schedule| :: schedule[k] < |progs|
    requires Complete(progs, Interleave(progs, m, schedule)) && EachOnce(progs, order)
    ensures Interleave(progs, m, schedule).mem == OneByOne(progs, m, order)
  {
    var s := Interleave(progs, m, schedule);
    InterleavingIsIsolated(progs, m, schedule);
    forall a | a in m ensures s.mem[a] == OneByOne(progs, m, order)[a] {
      FinalByte(progs, m, s, a);
      PrefixEffect(progs, m, order, a);
    }
  }

  lemma FinalByte(progs: seq<Program>, m: Memory, s: System, a: Addr)
    requires AllDefined(progs, m) && |progs| == |s.writers| && Isolated(progs, m, s) && Complete(progs, s) && a in m
    ensures forall v | 0 <= v < |progs| && Uses(progs[v], a) :: s.mem[a] == Exec(progs[v], m)[a]
    ensures (forall v | 0 <= v < |progs| :: !Uses(progs[v], a)) ==> s.mem[a] == m[a]
  {
    forall v | 0 <= v < |progs| && Uses(progs[v], a) ensures s.mem[a] == Exec(progs[v], m)[a] {
      assert AsIfAlone(progs, m, s, v);
      assert progs[v][..|progs[v]|] == progs[v];
    }
  }

  // ---------------------------------------------------------------- window updates as programs

  function RowAddrs(r: int, c0: int, c1: int, b: int): (s: seq<Addr>)
    ensures forall a :: a in s <==> a.r == r && c0 <= a.c < c1 && a.b == b
    ensures forall k, l | 0 <= k < l < |s| :: s[k] != s[l]
    decreases c1 - c0
  {
    if c1 <= c0 then [] else RowAddrs(r, c0, c1 - 1, b) + [Addr(r, c1 - 1, b)]
  }

  /** The bytes of a window, row by row. */
  function WindowAddrs(r0: int, r1: int, c0: int, c1: int, b: int): (s: seq<Addr>)
    ensures forall a :: a in s <==> r0 <= a.r < r1 && c0 <= a.c < c1 && a.b == b
    ensures forall k, l | 0 <= k < l < |s| :: s[k] != s[l]
    decreases r1 - r0
  {
    if r1 <= r0 then []
    else
      var before, row := WindowAddrs(r0, r1 - 1, c0, c1, b), RowAddrs(r1 - 1, c0, c1, b);
      assert forall k, l | 0 <= k < |before| && 0 <= l < |row| :: before[k] in before && row[l] in row;
      before + row
  }

  function Addrs(w: Write): seq<Addr> {
    WindowAddrs(w.r0, w.r1, w.c0, w.c1, w.patch / 8)
  }

  lemma AddrsAreTouched(w: Write, k: nat)
    requires k < |Addrs(w)|
    ensures w.Touches(Addrs(w)[k])
  {
    assert Addrs(w)[k] in Addrs(w);
  }

  /** One pass over the bytes of the window. */
  function Pass(w: Write, act: Addr -> bv8 -> bv8): (p: Program)
    ensures |p| == |Addrs(w)| && forall k | 0 <= k < |p| :: p[k].addr == Addrs(w)[k] && p[k].act == act(Addrs(w)[k])
  {
    seq(|Addrs(w)|, k requires 0 <= k < |Addrs(w)| => Op(Addrs(w)[k], act(Addrs(w)[k])))
  }

  lemma {:induction false} ExecAppend(p: Program, q: Program, m: Memory)
    requires Defined(p, m) && Defined(q, m)
    ensures Defined(p + q, m) && Exec(p + q, m) == Exec(q, Exec(p, m))
  {
    if q == [] {
      assert p + q == p;
    } else {
      var init, op := q[..|q| - 1], q[|q| - 1];
      assert q == init + [op];
      ExecAppend(p, init, m);
      AppendOne(p, init, op, m);
    }
  }

  lemma AppendOne(p: Program, q: Program, op: Op, m: Memory)
    requires Defined(p, m) && Defined(q, m) && Defined(p + q, m) && op.addr in m && Exec(p + q, m) == Exec(q, Exec(p, m))
    ensures Defined(p + (q + [op]), m) && Exec(p + (q + [op]), m) == Exec(q + [op], Exec(p, m))
  {
    assert p + (q + [op]) == (p + q) + [op];
    ExecLast(p + q, op, m);
    ExecLast(q, op, Exec(p, m));
  }

  lemma ExecLast(p: Program, op: Op, m: Memory)
    requires Defined(p, m) && op.addr in m
    ensures Defined(p + [op], m)
    ensures var x := Exec(p, m); Exec(p + [op], m) == x[op.addr := op.act(x[op.addr])]
  {
    assert (p + [op])[..|p|] == p;
  }

  /** A pass over distinct bytes changes each of them once. */
  lemma {:induction false} PassEffect(p: Program, m: Memory, a: Addr)
    requires Defined(p, m) && a in m && forall k, l | 0 <= k < l < |p| :: p[k].addr != p[l].addr
    ensures forall k | 0 <= k < |p| && p[k].addr == a :: Exec(p, m)[a] == p[k].act(m[a])
    ensures !Uses(p, a) ==> Exec(p, m)[a] == m[a]
  {
    if p != [] {
      var init, op := p[..|p| - 1], p[|p| - 1];
      PassEffect(init, m, a);
      assert forall k | 0 <= k < |init| :: init[k] == p[k];
      if op.addr == a {
        assert !Uses(init, a);
      }
    }
  }

  lemma OverWindow(w: Write, act: Addr -> bv8 -> bv8, m: Memory, a: Addr)
    requires a in m && forall c | w.Touches(c) :: c in m
    ensures Defined(Pass(w, act), m)
    ensures Exec(Pass(w, act), m)[a] == if w.Touches(a) then act(a)(m[a]) else m[a]
  {
    var p := Pass(w, act);
    forall k | 0 <= k < |p| ensures w.Touches(p[k].addr) {
      AddrsAreTouched(w, k);
    }
    PassEffect(p, m, a);
    if w.Touches(a) {
      assert a in Addrs(w);
      var k :| 0 <= k < |Addrs(w)| && Addrs(w)[k] == a;
      assert p[k].addr == a;
    }
  }

  /** First pass: clear the bit. */
  function Clearing(w: Write): Addr -> bv8 -> bv8 {
    _ => b => Clear(b, w.patch % 8)
  }

  /** Second pass: set it where the values say so. */
  function Setting(w: Write): Addr -> bv8 -> bv8 {
    a => b => b | (if w.Shaped() && w.Touches(a) && w.ValueAt(a.r, a.c) then Flag(w.patch % 8) else 0)
  }

  /** The byte steps of one window update. */
  function WindowProgram(w: Write): Program {
    Pass(w, Clearing(w)) + Pass(w, Setting(w))
  }

  lemma TwoPasses(w: Write, a: Addr, b: bv8)
    requires w.Shaped() && w.Touches(a)
    ensures Setting(w)(a)(Clearing(w)(a)(b)) == WithBit(b, w.patch % 8, w.ValueAt(a.r, a.c))
  {
  }

  /** The two passes of one update, run alone, do what the update says. */
  lemma WindowProgramWrites(m: Memory, w: Write)
    requires w.Shaped() && forall a | w.Touches(a) :: a in m
    ensures Defined(WindowProgram(w), m) && Exec(WindowProgram(w), m) == Apply(m, w)
  {
    var p, q := Pass(w, Clearing(w)), Pass(w, Setting(w));
    WindowDefined(w, Clearing(w), m);
    WindowDefined(w, Setting(w), m);
    ExecAppend(p, q, m);
    forall a | a in m
      ensures Exec(q, Exec(p, m))[a] == if w.Touches(a) then WithBit(m[a], w.patch % 8, w.ValueAt(a.r, a.c)) else m[a]
    {
      WindowProgramAt(m, w, a);
    }
    IsApplied(m, w, Exec(q, Exec(p, m)));
  }

  lemma WindowDefined(w: Write, act: Addr -> bv8 -> bv8, m: Memory)
    requires forall a | w.Touches(a) :: a in m
    ensures Defined(Pass(w, act), m)
  {
    forall k | 0 <= k < |Pass(w, act)| ensures Pass(w, act)[k].addr in m {
      AddrsAreTouched(w, k);
    }
  }

  lemma WindowProgramAt(m: Memory, w: Write, a: Addr)
    requires w.Shaped() && a in m && forall c | w.Touches(c) :: c in m
    ensures Defined(Pass(w, Clearing(w)), m) && Defined(Pass(w, Setting(w)), Exec(Pass(w, Clearing(w)), m))
    ensures Exec(Pass(w, Setting(w)), Exec(Pass(w, Clearing(w)), m))[a]
         == if w.Touches(a) then WithBit(m[a], w.patch % 8, w.ValueAt(a.r, a.c)) else m[a]
  {
    OverWindow(w, Clearing(w), m, a);
    OverWindow(w, Setting(w), Exec(Pass(w, Clearing(w)), m), a);
    if w.Touches(a) {
      TwoPasses(w, a, m[a]);
    }
  }

  /** All updates of one writer. */
  function ProgramOf(ws: seq<Write>): Program {
    if ws == [] then [] else ProgramOf(ws[..|ws| - 1]) + WindowProgram(ws[|ws| - 1])
  }

  ghost predicate InMemory(ws: seq<Write>, m: Memory) {
    forall k, a | 0 <= k < |ws| && ws[k].Touches(a) :: a in m
  }

  lemma {:induction false} ProgramWrites(m: Memory, ws: seq<Write>)
    requires (forall k | 0 <= k < |ws| :: ws[k].Shaped()) && InMemory(ws, m)
    ensures Defined(ProgramOf(ws), m) && Exec(ProgramOf(ws), m) == ApplyAll(m, ws)
  {
    if ws != [] {
      var init, w := ws[..|ws| - 1], ws[|ws| - 1];
      ProgramWrites(m, init);
      WindowProgramWrites(ApplyAll(m, init), w);
      WindowProgramWrites(m, w);
      ExecAppend(ProgramOf(init), WindowProgram(w), m);
    }
  }

  // ---------------------------------------------------------------- accepted owners

  /** Every window of the writer lies in chunks it claims. */
  ghost predicate WritesInside(ws: seq<Write>, chunks: set<Chunk>) {
    forall k, r, c | 0 <= k < |ws| && ws[k].Covers(r, c) :: CellChunk(r, c) in chunks
  }

  lemma {:induction false} ProgramStaysInside(ws: seq<Write>, chunks: set<Chunk>, a: Addr)
    requires WritesInside(ws, chunks) && Uses(ProgramOf(ws), a)
    ensures CellChunk(a.r, a.c) in chunks
  {
    var init, w := ws[..|ws| - 1], ws[|ws| - 1];
    AppendUses(ProgramOf(init), WindowProgram(w), a);
    if Uses(ProgramOf(init), a) {
      assert forall l | 0 <= l < |init| :: init[l] == ws[l];
      ProgramStaysInside(init, chunks, a);
    } else {
      WindowProgramTouches(w, a);
      assert ws[|ws| - 1].Covers(a.r, a.c);
    }
  }

  lemma AppendUses(p: Program, q: Program, a: Addr)
    requires Uses(p + q, a)
    ensures Uses(p, a) || Uses(q, a)
  {
    var k :| 0 <= k < |p + q| && (p + q)[k].addr == a;
    if k < |p| {
      assert p[k].addr == a;
    } else {
      assert q[k - |p|].addr == a;
    }
  }

  lemma WindowProgramTouches(w: Write, a: Addr)
    requires Uses(WindowProgram(w), a)
    ensures w.Touches(a)
  {
    AppendUses(Pass(w, Clearing(w)), Pass(w, Setting(w)), a);
    if Uses(Pass(w, Clearing(w)), a) {
      PassTouches(w, Clearing(w), a);
    } else {
      PassTouches(w, Setting(w), a);
    }
  }

  lemma PassTouches(w: Write, act: Addr -> bv8 -> bv8, a: Addr)
    requires Uses(Pass(w, act), a)
    ensures w.Touches(a)
  {
    var k :| 0 <= k < |Pass(w, act)| && Pass(w, act)[k].addr == a;
    AddrsAreTouched(w, k);
  }

  /** The writers of a batch: names, their claims, and the updates each of them makes. */
  ghost predicate Batch(names: seq<string>, claims: map<string, set<Chunk>>, writes: seq<seq<Write>>, m: Memory) {
    && |names| == |writes| && (forall v, w | 0 <= v < w < |names| :: names[v] != names[w])
    && (forall v | 0 <= v < |names| :: names[v] in claims && WritesInside(writes[v], claims[names[v]]) && InMemory(writes[v], m))
    && forall v, k | 0 <= v < |writes| && 0 <= k < |writes[v]| :: writes[v][k].Shaped()
  }

  function Programs(writes: seq<seq<Write>>): (ps: seq<Program>)
    requires forall v, k | 0 <= v < |writes| && 0 <= k < |writes[v]| :: writes[v][k].Shaped()
    ensures |ps| == |writes| && forall v | 0 <= v < |writes| :: ps[v] == ProgramOf(writes[v])
  {
    seq(|writes|, v requires 0 <= v < |writes| => ProgramOf(writes[v]))
  }

  lemma AcceptedClaimsIsolate(names: seq<string>, claims: map<string, set<Chunk>>, writes: seq<seq<Write>>, m: Memory)
    requires Batch(names, claims, writes, m) && ClaimsDisjoint(claims)
    ensures DisjointPrograms(Programs(writes)) && AllDefined(Programs(writes), m)
  {
    var progs := Programs(writes);
    forall v, w, a | 0 <= v < |progs| && 0 <= w < |progs| && v != w && Uses(progs[v], a) ensures !Uses(progs[w], a) {
      ProgramStaysInside(writes[v], claims[names[v]], a);
      assert names[v] != names[w] && claims[names[v]] !! claims[names[w]];
      if Uses(progs[w], a) {
        ProgramStaysInside(writes[w], claims[names[w]], a);
        assert false;
      }
    }
    forall v | 0 <= v < |progs| ensures Defined(progs[v], m) {
      ProgramWrites(m, writes[v]);
    }
  }

  /** All updates of all writers, writer by writer in the given order. */
  ghost function InOrder(m: Memory, writes: seq<seq<Write>>, order: seq<nat>): (x: Memory)
    requires forall v, k | 0 <= v < |writes| && 0 <= k < |writes[v]| :: writes[v][k].Shaped()
    requires forall k | 0 <= k < |order| :: order[k] < |writes|
    ensures x.Keys == m.Keys
  {
    if order == [] then m else ApplyAll(InOrder(m, writes, order[..|order| - 1]), writes[order[|order| - 1]])
  }

  lemma {:induction false} OneByOneIsInOrder(m: Memory, writes: seq<seq<Write>>, order: seq<nat>)
    requires forall v, k | 0 <= v < |writes| && 0 <= k < |writes[v]| :: writes[v][k].Shaped()
    requires forall v | 0 <= v < |writes| :: InMemory(writes[v], m)
    requires AllDefined(Programs(writes), m) && forall k | 0 <= k < |order| :: order[k] < |writes|
    ensures OneByOne(Programs(writes), m, order) == InOrder(m, writes, order)
  {
    if order != [] {
      var init, last := order[..|order| - 1], order[|order| - 1];
      OneByOneIsInOrder(m, writes, init);
      var x := InOrder(m, writes, init);
      ProgramWrites(x, writes[last]);
    }
  }

  /** When the ownership guard accepts the claims and every writer keeps to its chunks, any
      interleaving of their byte reads and writes ends in the packed array that applying the
      updates writer by writer gives, whatever the order of the writers. */
  lemma AcceptedWritersLoseNothing(names: seq<string>, claims: map<string, set<Chunk>>, writes: seq<seq<Write>>, m: Memory,
                                   schedule: seq<nat>, order: seq<nat>)
    requires Batch(names, claims, writes, m) && ClaimsDisjoint(claims) && AllDefined(Programs(writes), m)
    requires forall k | 0 <= k < |schedule| :: schedule[k] < |writes|
    requires Complete(Programs(writes), Interleave(Programs(writes), m, schedule)) && EachOnce(Programs(writes), order)
    ensures Interleave(Programs(writes), m, schedule).mem == InOrder(m, writes, order)
  {
    AcceptedClaimsIsolate(names, claims, writes, m);
    NoLostUpdate(Programs(writes), m, schedule, order);
    OneByOneIsInOrder(m, writes, order);
  }
}
