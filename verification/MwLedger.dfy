/** What the allocation calls do to memwatch's books, as functions of the whole state. The outcomes of
    the C library's `malloc` are parameters. Addresses are payload addresses; 0 is NULL. */
module MwLedger {
  import opened MwBlock
  import opened MwGuard
  import MwGrab
  import opened MwRing
  import opened MwStats
  import opened Basics

  /** One tracked block: header fields and the memory behind the header. */
  datatype Rec = Rec(addr: int, file: Name, line: int, size: Size, count: int, nml: bool, zone: seq<byte>)

  datatype State = State(
    chain: seq<Rec>,
    numCur: int, statCur: int, statTot: int, statMax: int, statNum: int, nmlNum: int, nmlCur: int,
    stats: seq<Stat>, statLevel: nat,
    grabs: seq<int>, hist: seq<Release>,
    useLimit: bool, limit: int, nmlLevel: int,
    counter: int, errors: int, inited: nat)

  /** How allocating a statistics record goes: at once, or after `mwFreeUp` with `tries`, or not. */
  datatype RecordOracle = RecordOracle(first: bool, tries: seq<bool>, second: bool)

  datatype BookOracle = BookOracle(perFile: RecordOracle, perLine: RecordOracle)

  datatype MallocOracle = MallocOracle(first: int, tries: seq<bool>, second: int, book: BookOracle)

  datatype Outcome = NullFree | Freed | DoubleFree | WildFree | Bypassed

  /** Where the block at `p` stands in the chain, or the chain's length. */
  function Find(chain: seq<Rec>, p: int): (i: nat)
    ensures i <= |chain|
    ensures i < |chain| ==> chain[i].addr == p
    ensures forall j :: 0 <= j < i ==> chain[j].addr != p
  {
    if chain == [] || chain[0].addr == p then 0 else 1 + Find(chain[1..], p)
  }

  predicate Owned(chain: seq<Rec>, p: int) {
    Find(chain, p) < |chain|
  }

  predicate WellSized(r: Rec) {
    r.size < LONG_LIMIT && |r.zone| == r.size + 2 * ZONE
  }

  function With(chain: seq<Rec>, p: int, r: Rec): seq<Rec> {
    var i := Find(chain, p);
    if i < |chain| then chain[i := r] else chain
  }

  function Without(chain: seq<Rec>, p: int): seq<Rec> {
    var i := Find(chain, p);
    if i < |chain| then chain[..i] + chain[i + 1..] else chain
  }

  /** `zone` with `data` written over its payload, `at` bytes into it. */
  function Patched(zone: seq<byte>, at: int, data: seq<byte>): seq<byte> {
    var i := ZONE + at;
    if 0 <= i && i + |data| <= |zone| then zone[..i] + data + zone[i + |data|..] else zone
  }

  function Patch(chain: seq<Rec>, p: int, at: int, data: seq<byte>): seq<Rec> {
    var i := Find(chain, p);
    if i < |chain| then With(chain, p, chain[i].(zone := Patched(chain[i].zone, at, data))) else chain
  }

  // ----- mwFreeUp

  function Next(tries: seq<bool>): bool {
    tries != [] && tries[0]
  }

  function Rest(tries: seq<bool>): seq<bool> {
    if tries == [] then [] else tries[1..]
  }

  datatype Released<T> = Released(left: seq<T>, tries: seq<bool>, errors: nat, ok: bool)

  /** Gives up grabbed no-mans-land kilobytes until an allocation succeeds. */
  function ReleaseGrabs(grabs: seq<int>, tries: seq<bool>): Released<int>
    decreases |grabs|
  {
    var less := MwGrab.Drop(grabs, 1, VAL_NML);
    if |less| >= |grabs| then Released(grabs, tries, 0, false)
    else if Next(tries) then Released(less, Rest(tries), 0, true)
    else ReleaseGrabs(less, Rest(tries))
  }

  /** A retired block was written to, as far as `mwTestMem` looks. */
  predicate Touched(r: Rec) {
    |r.zone| == r.size + 2 * ZONE && !AllAre(Payload(r.zone, r.size)[..Looked(r.size)], VAL_NML)
  }

  /** Gives up no-mans-land blocks, newest first, until an allocation succeeds. */
  function ReleaseBlocks(chain: seq<Rec>, tries: seq<bool>): Released<Rec> {
    if chain == [] then Released([], tries, 0, false)
    else if !chain[0].nml then
      var r := ReleaseBlocks(chain[1..], tries);
      r.(left := [chain[0]] + r.left)
    else
      var e := if Touched(chain[0]) then 1 else 0;
      if Next(tries) then Released(chain[1..], Rest(tries), e, true)
      else
        var r := ReleaseBlocks(chain[1..], Rest(tries));
        r.(errors := r.errors + e)
  }

  function FreeUp(s: State, tries: seq<bool>): (State, bool) {
    var g := ReleaseGrabs(s.grabs, tries);
    var s1 := s.(grabs := g.left);
    if g.ok then (s1, true)
    else
      var b := ReleaseBlocks(s.chain, g.tries);
      (s1.(chain := b.left, errors := s.errors + b.errors), b.ok)
  }

  // ----- statistics

  function BookOne(s: State, e: Entry, size: int, file: Name, line: int, o: RecordOracle): State {
    if FindStat(s.stats, file, line) == |s.stats| && !o.first then
      var (t, freed) := FreeUp(s, o.tries);
      t.(stats := Book(s.stats, e, size, file, line, freed && o.second))
    else
      s.(stats := Book(s.stats, e, size, file, line, true))
  }

  function BookAll(s: State, e: Entry, size: int, file: Name, line: int, o: BookOracle): State {
    if s.statLevel == 0 then s
    else
      var t := BookOne(s, e, size, file, MODULE_LINE, o.perFile);
      if s.statLevel > 1 && line != MODULE_LINE && file.Some? then BookOne(t, e, size, file, line, o.perLine) else t
  }

  // ----- allocation

  function Obtain(s: State, o: MallocOracle): (State, int) {
    if o.first != 0 then (s, o.first)
    else
      var (t, freed) := FreeUp(s, o.tries);
      if !freed then (t.(errors := t.errors + 1), 0)
      else if o.second == 0 then (t.(errors := t.errors + 2), 0)
      else (t, o.second)
  }

  /** What the C library promises about the addresses it hands out. */
  predicate Grants(s: State, size: Size, o: MallocOracle) {
    && (o.first != 0 ==> !Owned(s.chain, o.first) && OVERHEAD + size < LONG_LIMIT)
    && (o.second != 0 ==> !Owned(FreeUp(s, o.tries).0.chain, o.second) && OVERHEAD + size < LONG_LIMIT)
  }

  function Enter(s: State, addr: int, size: Size, file: Name, line: int, o: BookOracle): State {
    BookAll(Admitted(s, addr, size, file, line), Gain, ToLong(size), file, line, o)
  }

  /** A new block is on the chain and counted, but not yet in the statistics. */
  function Admitted(s: State, addr: int, size: Size, file: Name, line: int): State {
    var r := Rec(addr, file, line, size, s.counter, false, Zone(Fill(size, VAL_NEW)));
    Tallied(s.(chain := [r] + s.chain), ToLong(size))
  }

  function Tallied(s: State, size: int): State {
    var cur := s.statCur + size;
    s.(numCur := s.numCur + 1, statCur := cur, statTot := s.statTot + size,
       statMax := if cur > s.statMax then cur else s.statMax, statNum := s.statNum + 1)
  }

  function Malloc(s: State, size: Size, file: Name, line: int, o: MallocOracle): (State, int) {
    Checked(s.(counter := s.counter + 1), size, file, line, o)
  }

  function Checked(s: State, size: Size, file: Name, line: int, o: MallocOracle): (State, int) {
    if (OVERHEAD + size) % SIZE_LIMIT < size then (s, 0)
    else if s.useLimit && ToLong(size) + s.statCur > s.limit then (s.(errors := s.errors + 1), 0)
    else Allocate(s, size, file, line, o)
  }

  function Allocate(s: State, size: Size, file: Name, line: int, o: MallocOracle): (State, int) {
    var (t, addr) := Obtain(s, o);
    if addr == 0 then (t, 0) else (Enter(t, addr, size, file, line, o.book), addr)
  }

  function Calloc(s: State, a: Size, b: Size, file: Name, line: int, o: MallocOracle): (State, int) {
    var size := (a * b) % SIZE_LIMIT;
    var (t, addr) := Malloc(s, size, file, line, o);
    if addr == 0 then (t, 0) else (t.(chain := Patch(t.chain, addr, 0, Fill(size, 0))), addr)
  }

  // ----- release

  /** `check_dbl_free`: the call is refused and reported. */
  function Refuse(s: State, p: int): (State, Outcome) {
    (s.(errors := s.errors + 1), if Remembers(s.hist, p) then DoubleFree else WildFree)
  }

  function GuardErrors(r: Rec): nat {
    if WellSized(r) then (if Underflowed(r.zone) then 1 else 0) + (if Overflowed(r.zone, r.size) then 1 else 0) else 0
  }

  /** A released block that stays behind as no-mans-land. */
  function Retired(r: Rec): Rec {
    r.(nml := true, zone := Patched(r.zone, 0, Fill(r.size, VAL_NML)))
  }

  /** Without a file name, the pointer goes straight to the C library and memwatch takes no notice. */
  function Free(s: State, p: int, file: Name, line: int, o: BookOracle): (State, Outcome) {
    var s0 := s.(counter := s.counter + 1);
    if file == None then (s, Bypassed)
    else if p == 0 then (s0, NullFree)
    else if !Owned(s.chain, p) then Refuse(s0, p)
    else FreeOwned(s0, s.chain[Find(s.chain, p)], file, line, o)
  }

  /** The C library may be handed `p` where no file name is given: it is not the inside of a block. */
  predicate Returnable(s: State, p: int, file: Name) {
    file.Some? || !Owned(s.chain, p)
  }

  function FreeOwned(s: State, r: Rec, file: Name, line: int, o: BookOracle): (State, Outcome) {
    var t := s.(errors := s.errors + GuardErrors(r));
    if r.nml then Refuse(t, r.addr) else (ReleaseLive(t, r, file, line, o), Freed)
  }

  function ReleaseLive(s: State, r: Rec, file: Name, line: int, o: BookOracle): State {
    var t := BookAll(Leaving(s, r), Loss, ToLong(r.size), r.file, r.line, o);
    Gone(t, r).(hist := s.hist + [Release(r.addr, file, line)])
  }

  /** `s` while `r` is being released: already off the counters, still on the chain. */
  function Leaving(s: State, r: Rec): State {
    s.(numCur := s.numCur - 1, statCur := s.statCur - ToLong(r.size))
  }

  /** The block `r` is given back, or kept as no-mans-land. */
  function Gone(s: State, r: Rec): State {
    if s.nmlLevel == 0 then s.(chain := Without(s.chain, r.addr))
    else s.(chain := With(s.chain, r.addr, Retired(r)), nmlNum := s.nmlNum + 1, nmlCur := s.nmlCur + ToLong(r.size))
  }

  // ----- realloc

  datatype ReallocOracle = ReallocOracle(malloc: MallocOracle, free: BookOracle)

  function Realloc(s: State, p: int, size: Size, file: Name, line: int, o: ReallocOracle): (State, int) {
    if p == 0 then Malloc(s, size, file, line, o.malloc)
    else if size == 0 then (Free(s, p, file, line, o.free).0, 0)
    else if !Owned(s.chain, p) then (Refuse(s, p).0, 0)
    else ReallocOwned(s, s.chain[Find(s.chain, p)], size, file, line, o)
  }

  function ReallocOwned(s: State, r: Rec, size: Size, file: Name, line: int, o: ReallocOracle): (State, int) {
    if r.nml then (Refuse(s.(errors := s.errors + 1), r.addr).0, 0)
    else if s.useLimit && ToLong(size) + s.statCur - ToLong(r.size) > s.limit then
      (s.(counter := s.counter + 1, errors := s.errors + 1), 0)
    else Moved(s, r, size, file, line, o)
  }

  /** "fake realloc operation" */
  function Moved(s: State, r: Rec, size: Size, file: Name, line: int, o: ReallocOracle): (State, int) {
    var (t, addr) := Exchanged(s.(useLimit := false), r, size, file, line, o);
    (t.(useLimit := s.useLimit), addr)
  }

  function Exchanged(s: State, r: Rec, size: Size, file: Name, line: int, o: ReallocOracle): (State, int) {
    var (t, addr) := Malloc(s, size, file, line, o.malloc);
    if addr == 0 then (t, 0)
    else
      var t1 := t.(chain := Patch(t.chain, addr, 0, Payload0(r, Min(size, r.size))));
      (Free(t1, r.addr, file, line, o.free).0, addr)
  }

  /** The first `n` bytes of a block's payload. */
  function Payload0(r: Rec, n: nat): seq<byte> {
    if ZONE + n <= |r.zone| then r.zone[ZONE..ZONE + n] else []
  }

  // ----- the beginning and the end

  /** `mwInit`: unless memwatch is running the statistics start over, but nothing resets the number of
      live blocks. */
  function Begun(s: State): State {
    var t := s.(inited := s.inited + 1);
    if s.inited > 0 then t
    else t.(stats := [], statTot := 0, statCur := 0, statMax := 0, statNum := 0, nmlNum := 0, nmlCur := 0)
  }

  /** `mwAutoInit`, with which the calls begin. The functions above are what follows. */
  function Awake(s: State): State {
    if s.inited > 0 then s else Begun(s)
  }

  /** What `mwAbort` counts: every block not released, and every retired block written to. */
  function ScanErrors(c: seq<Rec>): nat {
    if c == [] then 0
    else (if !c[0].nml || Touched(c[0]) then 1 else 0) + ScanErrors(c[1..])
  }

  /** The books before the first call, with statistics at `level`. */
  function Initial(level: nat): State {
    State([], 0, 0, 0, 0, 0, 0, 0, [], level, [], [], false, 0, 0, 0, 0, 0)
  }

  // ----- everything a client can do

  datatype Op =
    | OpMalloc(size: Size, file: Name, line: int, o: MallocOracle)
    | OpCalloc(a: Size, b: Size, file: Name, line: int, o: MallocOracle)
    | OpRealloc(p: int, size: Size, file: Name, line: int, ro: ReallocOracle)
    | OpFree(p: int, file: Name, line: int, fo: BookOracle)
    | OpWrite(p: int, at: int, v: byte)
    | OpLimit(lim: int)
    | OpNoMansLand(level: int, avail: nat)
    | OpStatistics(level: int)

  function SetLimit(s: State, lim: int): State {
    s.(useLimit := lim != 0, limit := lim)
  }

  /** `mwStatistics` */
  function SetStatistics(s: State, level: int): State {
    s.(statLevel := if level < 0 then 0 else level)
  }

  /** The client stores a byte through a pointer it holds; `at` may lie in a guard zone. */
  function Write(s: State, p: int, at: int, v: byte): State {
    s.(chain := Patch(s.chain, p, at, [v]))
  }

  /** `mwNoMansLand`; `avail` is how many kilobytes the C library can still be made to give. */
  function NoMansLand(s: State, level: int, avail: nat): State {
    if level == 0 then s.(grabs := MwGrab.Drop(s.grabs, MwGrab.DROP_ALL, VAL_NML), nmlLevel := 0)
    else if level == 1 then s.(nmlLevel := 1)
    else if level == 2 then
      var room := s.limit - s.statCur - MwGrab.GRAB_SIZE * |s.grabs|;
      var n := MwGrab.Obtainable(MwGrab.GRAB_ALL, avail, s.useLimit, room);
      s.(grabs := MwGrab.Repeat(VAL_NML, n) + s.grabs, nmlLevel := 2)
    else s
  }

  /** Stores go past memwatch, and so does a release without a file name. */
  predicate AutoInits(op: Op) {
    match op
    case OpWrite(_, _, _) => false
    case OpFree(_, file, _, _) => file.Some?
    case _ => true
  }

  /** The books `op` finds once memwatch runs. */
  function Ready(s: State, op: Op): State {
    if AutoInits(op) then Awake(s) else s
  }

  function Step(s: State, op: Op): State {
    Act(Ready(s, op), op)
  }

  /** What a call does while memwatch runs. */
  function Act(s: State, op: Op): State {
    match op
    case OpMalloc(size, file, line, o) => Malloc(s, size, file, line, o).0
    case OpCalloc(a, b, file, line, o) => Calloc(s, a, b, file, line, o).0
    case OpRealloc(p, size, file, line, ro) => Realloc(s, p, size, file, line, ro).0
    case OpFree(p, file, line, fo) => Free(s, p, file, line, fo).0
    case OpWrite(p, at, v) => Write(s, p, at, v)
    case OpLimit(lim) => SetLimit(s, lim)
    case OpNoMansLand(level, avail) => NoMansLand(s, level, avail)
    case OpStatistics(level) => SetStatistics(s, level)
  }

  /** The library's side of the contract, and what it asks of the client. */
  predicate Allowed(s: State, op: Op) {
    match op
    case OpMalloc(size, _, _, o) => Grants(s, size, o)
    case OpCalloc(a, b, _, _, o) => Grants(s, (a * b) % SIZE_LIMIT, o)
    case OpRealloc(p, size, file, _, ro) => Grants(s, size, ro.malloc) && Returnable(s, p, file)
    case OpFree(p, file, _, _) => Returnable(s, p, file)
    case _ => true
  }

  function Run(s: State, ops: seq<Op>): State
    decreases |ops|
  {
    if ops == [] then s else Run(Step(s, ops[0]), ops[1..])
  }

  predicate AllowedRun(s: State, ops: seq<Op>)
    decreases |ops|
  {
    ops == [] || (Allowed(s, ops[0]) && AllowedRun(Step(s, ops[0]), ops[1..]))
  }
}
