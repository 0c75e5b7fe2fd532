/** The conformance harness: CPU callbacks drive one outstanding case at a time through a request channel. */
module ConformanceHarness {
  import opened Identities

  const TEST_ADDRESS_MIN: nat := 0x0001_0000
  const TEST_ADDRESS_MAX: nat := 0x00FF_FFF0
  const GUEST_RAM_END: nat := 0x0100_0000
  const SLOT_BYTES: nat := 15
  const RESUME_MIN: nat := 0x1000
  const CONTROL_PORT: nat := 0xBEF0
  const SIGNAL_READY: nat := 0x434F_4E46

  /** A word of flags, as the positions of its set bits. */
  type Flags = set<nat>

  const REQUIRE_MEMORY: nat := 0
  const REQUIRE_FAULT: nat := 1
  const REQUIRE_X87: nat := 2
  const REQUIRE_SEGMENT_STATE: nat := 3
  const REQUIRE_BRANCH: nat := 4
  const REQUIRE_PROFILE: nat := 5
  const REQUIRE_INSTRUCTION: nat := 6
  const REQUIRE_MEMORY_BOUNDS: nat := 7

  const SUPPORTED: Flags := {REQUIRE_MEMORY, REQUIRE_FAULT, REQUIRE_X87, REQUIRE_SEGMENT_STATE, REQUIRE_BRANCH}
  const REQUIRE_KNOWN: Flags := SUPPORTED + {REQUIRE_PROFILE, REQUIRE_INSTRUCTION, REQUIRE_MEMORY_BOUNDS}

  /** The bit of EFLAGS that is always set. */
  const FIXED_EFLAG: nat := 1
  const SAFE_EFLAGS: Flags := {0, FIXED_EFLAG, 2, 4, 6, 7, 9, 10, 11}

  /** Sequence numbers and addresses have 32 bits. */
  function Low32(n: nat): nat { n % 0x1_0000_0000 }

  datatype Region = Region(address: nat, length: nat, writable: bool)

  datatype Request = Request(sequence: nat, length: nat, eip: nat, eflags: Flags, requirements: Flags, fsSelector: nat, fsBase: nat,
                             regions: seq<Region>)

  /** One input line: a CASE, or a line the parser refuses. */
  datatype InputLine = Case(request: Request) | Malformed(detail: string)

  /** A segment register; dpl and access stand for the descriptor cache. */
  datatype Segment = Segment(selector: nat, base: nat, dpl: nat, access: nat)

  /** ES, CS, SS, DS, FS, GS. */
  datatype Segments = Segments(es: Segment, cs: Segment, ss: Segment, ds: Segment, fs: Segment, gs: Segment)

  datatype Verdict = Complete(control: string, fault: string, finalEip: nat) | Unsupported(detail: string) | Failed(detail: string)

  datatype Line = Obs(sequence: nat, verdict: Verdict) | Done(sequence: nat) | Fatal(detail: string)

  datatype Mailbox = Empty | Execute | Skip | End

  // ----- the log

  function ObsCount(log: seq<Line>): nat {
    if log == [] then 0 else ObsCount(log[..|log| - 1]) + if log[|log| - 1].Obs? then 1 else 0
  }

  /** What a log says so far: n observations and still open, closed by DONE, cut off by a fatal line, or out of order. */
  datatype LogState = Open(count: nat) | Closed(count: nat) | Cut | Disorderly

  /** Each observation carries the number of observations before it; DONE carries their total and nothing is observed
      after it; nothing at all follows a fatal line. */
  function Extend(s: LogState, line: Line): LogState {
    match (s, line)
    case (Open(n), Obs(sequence, _)) => if sequence == Low32(n) then Open(n + 1) else Disorderly
    case (Open(n), Done(sequence)) => if sequence == Low32(n) then Closed(n) else Disorderly
    case (Closed(n), Done(sequence)) => if sequence == Low32(n) then s else Disorderly
    case (Open(_), Fatal(_)) => Cut
    case (Closed(_), Fatal(_)) => Cut
    case _ => Disorderly
  }

  function Scan(log: seq<Line>): LogState {
    if log == [] then Open(0) else Extend(Scan(log[..|log| - 1]), log[|log| - 1])
  }

  lemma LogGrows(log: seq<Line>, line: Line)
    ensures Scan(log + [line]) == Extend(Scan(log), line)
  {
    assert (log + [line])[..|log|] == log;
  }

  lemma LogObserves(log: seq<Line>, n: nat, sequence: nat, verdict: Verdict)
    requires Scan(log) == Open(n) && sequence == Low32(n)
    ensures Scan(log + [Obs(sequence, verdict)]) == Open(n + 1)
  {
    LogGrows(log, Obs(sequence, verdict));
  }

  lemma LogCloses(log: seq<Line>, n: nat, sequence: nat)
    requires (Scan(log) == Open(n) || Scan(log) == Closed(n)) && sequence == Low32(n)
    ensures Scan(log + [Done(sequence)]) == Closed(n)
  {
    LogGrows(log, Done(sequence));
  }

  /** What an orderly log has at position i: the k-th observation is that of case k and nothing but observations comes
      before it; DONE carries the number of observations before it, and only DONE and a fatal line come later;
      nothing follows a fatal line. */
  predicate OrderlyAt(log: seq<Line>, i: nat)
    requires i < |log|
  {
    match log[i]
    case Obs(sequence, _) => sequence == ObsCount(log[..i]) % 0x1_0000_0000 && forall j | 0 <= j < i :: log[j].Obs?
    case Done(sequence) => sequence == ObsCount(log[..i]) % 0x1_0000_0000 && forall j | 0 <= j < i :: !log[j].Fatal?
    case Fatal(_) => i == |log| - 1
  }

  /** Observations come one per case, in sequence order, and none after DONE or a fatal line. */
  lemma {:induction false} ObservationsInOrder(log: seq<Line>)
    ensures !Scan(log).Disorderly? <==> forall i | 0 <= i < |log| :: OrderlyAt(log, i)
  {
    if log != [] {
      var before, n := log[..|log| - 1], |log| - 1;
      ObservationsInOrder(before);
      LastLine(log);
      forall i | 0 <= i < n ensures OrderlyAt(log, i) <==> OrderlyAt(before, i) && !log[i].Fatal? { LineBefore(log, i); }
    }
  }

  lemma LineBefore(log: seq<Line>, i: nat)
    requires i < |log| - 1
    ensures OrderlyAt(log, i) <==> OrderlyAt(log[..|log| - 1], i) && !log[i].Fatal?
  {
    var before := log[..|log| - 1];
    assert before[..i] == log[..i];
    assert forall j | 0 <= j <= i :: before[j] == log[j];
  }

  /** The last line of a log fits what came before it exactly when it is orderly at its place. */
  lemma LastLine(log: seq<Line>)
    requires log != []
    ensures (var n := |log| - 1;
             !Scan(log).Disorderly? <==>
               !Scan(log[..n]).Disorderly? && OrderlyAt(log, n) && forall j | 0 <= j < n :: !log[j].Fatal?)
  {
    var before := log[..|log| - 1];
    assert forall j | 0 <= j < |before| :: before[j] == log[j];
    StateMeans(before);
  }

  /** What the state of an orderly log says about its lines. */
  lemma {:induction false} StateMeans(log: seq<Line>)
    ensures Scan(log).Open? || Scan(log).Closed? ==> Scan(log).count == ObsCount(log) && forall i | 0 <= i < |log| :: !log[i].Fatal?
    ensures Scan(log).Open? ==> forall i | 0 <= i < |log| :: log[i].Obs?
    ensures Scan(log).Closed? ==> exists i :: 0 <= i < |log| && !log[i].Obs?
    ensures Scan(log).Cut? ==> exists i :: 0 <= i < |log| && log[i].Fatal?
  {
    if log != [] {
      var before, n := log[..|log| - 1], |log| - 1;
      StateMeans(before);
      assert forall i | 0 <= i < n :: before[i] == log[i];
      if Scan(before).Closed? {
        var i :| 0 <= i < |before| && !before[i].Obs?;
        assert !log[i].Obs?;
      }
      assert Scan(log).Closed? ==> !log[n].Obs? || Scan(before).Closed?;
      assert Scan(log).Cut? ==> log[n].Fatal?;
    }
  }

  // ----- pure decisions

  function Overlaps(region: Region, eip: nat): bool {
    region.address < eip + SLOT_BYTES && eip < region.address + region.length
  }

  predicate FsStateValid(r: Request) {
    if r.fsSelector == 0 then r.fsBase == 0 else r.fsSelector % 8 == 3
  }

  /** Why a well-formed case is refused before it runs, in the order of the checks. */
  function Refusal(r: Request, review: Option<string>, x87Exact: bool): Option<Verdict> {
    if REQUIRE_INSTRUCTION in r.requirements then Some(Unsupported("instruction_not_implemented"))
    else if !(r.requirements <= SUPPORTED) then
      Some(Unsupported(
        if REQUIRE_MEMORY_BOUNDS in r.requirements then "memory_bounds_not_implemented"
        else if REQUIRE_SEGMENT_STATE in r.requirements then "segment_state_not_implemented"
        else if REQUIRE_PROFILE in r.requirements then "profile_not_implemented"
        else "capability_not_implemented"))
    else if r.eip < TEST_ADDRESS_MIN || r.eip > TEST_ADDRESS_MAX then Some(Failed("eip_outside_phase1_guest_ram"))
    else if !(r.eflags <= SAFE_EFLAGS) || FIXED_EFLAG !in r.eflags then Some(Unsupported("eflags_not_safe_for_phase1_harness"))
    else if !FsStateValid(r) then Some(Unsupported("segment_state_invalid"))
    else if review.Some? then Some(Unsupported(review.value))
    else if exists i | 0 <= i < |r.regions| :: Overlaps(r.regions[i], r.eip) then Some(Failed("memory_overlaps_instruction"))
    else if !x87Exact then Some(Unsupported("x87_state_injection_not_exact"))
    else None
  }

  /** A list of checks decides an outcome: that of the first one that applies, and none when none applies. */
  ghost predicate Decides<T(!new)>(checks: seq<(bool, T)>, outcome: Option<T>) {
    match outcome
    case None => forall i | 0 <= i < |checks| :: !checks[i].0
    case Some(v) => exists i: nat :: IsFirstCheck(checks, i) && checks[i].1 == v
  }

  predicate IsFirstCheck<T>(checks: seq<(bool, T)>, i: nat) {
    i < |checks| && checks[i].0 && forall j | 0 <= j < i :: !checks[j].0
  }

  /** No flag is set that a case may not set: the trap flag, the reserved ones and everything above overflow. */
  predicate NoneUnsafe(eflags: Flags) { forall bit | bit in eflags :: bit != 3 && bit != 5 && bit != 8 && bit <= 11 }

  /** The checks of a case in their order, by the bits of its words. */
  ghost function RefusalChecks(r: Request, review: Option<string>, x87Exact: bool): seq<(bool, Verdict)> {
    var unsupported := exists bit :: bit in r.requirements && bit > 4;
    [(6 in r.requirements, Unsupported("instruction_not_implemented")),
     (7 in r.requirements, Unsupported("memory_bounds_not_implemented")),
     (unsupported && 3 in r.requirements, Unsupported("segment_state_not_implemented")),
     (5 in r.requirements, Unsupported("profile_not_implemented")),
     (unsupported, Unsupported("capability_not_implemented")),
     (r.eip < 0x1_0000 || r.eip > 0xFF_FFF0, Failed("eip_outside_phase1_guest_ram")),
     (1 !in r.eflags || !NoneUnsafe(r.eflags),
      Unsupported("eflags_not_safe_for_phase1_harness")),
     (if r.fsSelector == 0 then r.fsBase != 0 else r.fsSelector % 8 != 3, Unsupported("segment_state_invalid")),
     (review.Some?, Unsupported(if review.Some? then review.value else "")),
     (exists i :: 0 <= i < |r.regions| && !ClearOf(r.regions[i], r.eip), Failed("memory_overlaps_instruction")),
     (!x87Exact, Unsupported("x87_state_injection_not_exact"))]
  }

  /** Each refused case is refused for the first check it fails. */
  lemma RefusalDecided(r: Request, review: Option<string>, x87Exact: bool)
    ensures Decides(RefusalChecks(r, review, x87Exact), Refusal(r, review, x87Exact))
  {
    RegionsClear(r.regions, r.eip);
    var checks := RefusalChecks(r, review, x87Exact);
    SupportedBits(r.requirements);
    SafeBits(r.eflags);
    var k := First(checks);
    assert (k > 0 ==> !checks[0].0) && (k > 1 ==> !checks[1].0) && (k > 2 ==> !checks[2].0) && (k > 3 ==> !checks[3].0);
    assert (k > 4 ==> !checks[4].0) && (k > 5 ==> !checks[5].0) && (k > 6 ==> !checks[6].0) && (k > 7 ==> !checks[7].0);
    assert (k > 8 ==> !checks[8].0) && (k > 9 ==> !checks[9].0) && (k > 10 ==> !checks[10].0);
    if k < |checks| {
      assert IsFirstCheck(checks, k);
      assert k == 0 || k == 1 || k == 2 || k == 3 || k == 4 || k == 5 || k == 6 || k == 7 || k == 8 || k == 9 || k == 10;
    }
  }

  lemma SupportedBits(requirements: Flags)
    ensures requirements <= SUPPORTED <==> !exists bit :: bit in requirements && bit > 4
  {
  }

  lemma SafeBits(eflags: Flags)
    ensures eflags <= SAFE_EFLAGS <==> NoneUnsafe(eflags)
  {
  }

  function First<T>(checks: seq<(bool, T)>): (k: nat)
    ensures k <= |checks| && forall j | 0 <= j < k :: !checks[j].0
    ensures k < |checks| ==> checks[k].0
  {
    if checks == [] || checks[0].0 then 0 else First(checks[1..]) + 1
  }

  /** Requests that stop the harness. */
  function Breach(r: Request): Option<string> {
    if !(r.requirements <= REQUIRE_KNOWN) then Some("private_input_requirements_invalid")
    else if REQUIRE_INSTRUCTION in r.requirements || !(r.requirements <= SUPPORTED) then None
    else if (REQUIRE_MEMORY in r.requirements) != (r.regions != []) then Some("private_input_memory_requirement_mismatch")
    else None
  }

  /** A requirement bit nobody knows, or memory regions without their requirement or the other way round. */
  ghost predicate Breaching(r: Request) {
    || (exists bit :: bit in r.requirements && bit > 7)
    || (!(exists bit :: bit in r.requirements && bit > 4) && (0 in r.requirements) != (r.regions != []))
  }

  lemma BreachExactly(r: Request)
    ensures Breach(r).Some? <==> Breaching(r)
    ensures Breach(r) == Some("private_input_requirements_invalid") <==> exists bit :: bit in r.requirements && bit > 7
  {
    SupportedBits(r.requirements);
    assert r.requirements <= REQUIRE_KNOWN <==> !exists bit :: bit in r.requirements && bit > 7;
  }

  /** The segments a case runs under: FS as requested, everything else as the harness had it. */
  function CaseSegments(s: Segments, r: Request): Segments {
    if r.fsSelector == 0 then s
    else s.(fs := s.ds.(selector := r.fsSelector, base := r.fsBase, dpl := 3, access := 0))
  }

  predicate FsMatches(s: Segments, r: Request) { s.fs.selector == r.fsSelector && s.fs.base == r.fsBase }

  function Lowered(s: Segment): Segment { s.(selector := s.selector / 4 * 4 + 3, dpl := 3) }

  /** CS, SS, DS and ES drop to ring 3; FS and GS stay. */
  function UserSegments(s: Segments): Segments {
    s.(cs := Lowered(s.cs), ss := Lowered(s.ss), ds := Lowered(s.ds), es := Lowered(s.es))
  }

  /** The verdict on an instruction that ran to its end. */
  function AfterVerdict(r: Request, violation: Option<string>, sawIo: bool, sawSystem: bool, sawBranch: bool, fsUnchanged: bool,
                        control: string, finalEip: nat): Verdict
  {
    if violation.Some? then Unsupported(violation.value)
    else if sawIo then Unsupported("io_not_implemented")
    else if sawSystem then Unsupported("instruction_scope_not_implemented")
    else if !fsUnchanged then Unsupported("segment_state_changed")
    else if !sawBranch && finalEip != Low32(r.eip + r.length) then Unsupported("unclassified_control_flow")
    else Complete(control, "none", finalEip)
  }

  function FaultVerdict(r: Request, violation: Option<string>, sawIo: bool, sawSystem: bool, divide: bool, errorCode: nat,
                        previousEip: nat, vectorDetail: string): Verdict
  {
    if divide && errorCode == 0 && violation.None? && !sawIo && !sawSystem && previousEip == r.eip then
      Complete("fault", "divide_error", previousEip)
    else if violation.Some? then Unsupported(violation.value)
    else Unsupported(vectorDetail)
  }

  datatype AccessKind = Read | Write | ReadWrite | Other

  predicate CoversAccess(region: Region, address: nat, length: nat) {
    region.address <= address && address + length <= region.address + region.length
  }

  function FirstCovering(regions: seq<Region>, address: nat, length: nat): Option<Region> {
    if regions == [] then None
    else if CoversAccess(regions[0], address, length) then Some(regions[0])
    else FirstCovering(regions[1..], address, length)
  }

  /** What a linear access violates, if anything. */
  function Violation(r: Request, linear: nat, physical: nat, length: nat, kind: AccessKind): Option<string> {
    if linear != physical then Some("non_identity_memory_translation")
    else if length == 0 || linear + length > GUEST_RAM_END then Some("memory_access_out_of_bounds")
    else
      match FirstCovering(r.regions, linear, length)
      case None => Some("undeclared_memory_access")
      case Some(region) =>
        if (kind.Write? || kind.ReadWrite?) && !region.writable then Some("write_to_read_only_memory")
        else if kind.Other? then Some("memory_access_kind_not_implemented")
        else None
  }

  lemma {:induction false} CoveringIsFirst(regions: seq<Region>, address: nat, length: nat)
    ensures FirstCovering(regions, address, length).None? ==> forall i | 0 <= i < |regions| :: !CoversAccess(regions[i], address, length)
    ensures FirstCovering(regions, address, length).Some? ==> exists i | 0 <= i < |regions| ::
              regions[i] == FirstCovering(regions, address, length).value && CoversAccess(regions[i], address, length)
  {
    if regions != [] && !CoversAccess(regions[0], address, length) {
      CoveringIsFirst(regions[1..], address, length);
      assert forall i | 0 < i < |regions| :: regions[i] == regions[1..][i - 1];
    }
  }

  /** The request parser refuses regions that share a byte. */
  predicate RegionsDisjoint(regions: seq<Region>) {
    forall i, j | 0 <= i < j < |regions| ::
      regions[i].address + regions[i].length <= regions[j].address || regions[j].address + regions[j].length <= regions[i].address
  }

  predicate Permits(region: Region, address: nat, length: nat, kind: AccessKind) {
    CoversAccess(region, address, length) && !kind.Other? && (kind.Read? || region.writable)
  }

  /** An access is clean exactly when it is identity-mapped, inside guest RAM and permitted by a declared region. */
  lemma ViolationExactly(r: Request, linear: nat, physical: nat, length: nat, kind: AccessKind)
    requires RegionsDisjoint(r.regions)
    ensures Violation(r, linear, physical, length, kind).None?
        <==> linear == physical && length > 0 && linear + length <= 0x100_0000
             && exists i | 0 <= i < |r.regions| :: Permits(r.regions[i], linear, length, kind)
  {
    CoveringIsFirst(r.regions, linear, length);
    var first := FirstCovering(r.regions, linear, length);
    if first.Some? && length > 0 {
      var k :| 0 <= k < |r.regions| && r.regions[k] == first.value && CoversAccess(r.regions[k], linear, length);
      forall i | 0 <= i < |r.regions| && CoversAccess(r.regions[i], linear, length) ensures i == k { }
      assert Permits(r.regions[k], linear, length, kind) <==> !kind.Other? && (kind.Read? || first.value.writable);
    }
  }

  /** What a violation is called: the first of five checks the access fails. */
  ghost function AccessChecks(r: Request, linear: nat, physical: nat, length: nat, kind: AccessKind): seq<(bool, string)> {
    [(linear != physical, "non_identity_memory_translation"),
     (length == 0 || linear + length > 0x100_0000, "memory_access_out_of_bounds"),
     (forall i | 0 <= i < |r.regions| :: !CoversAccess(r.regions[i], linear, length), "undeclared_memory_access"),
     ((kind.Write? || kind.ReadWrite?) && !Writable(r.regions, linear, length), "write_to_read_only_memory"),
     (kind.Other?, "memory_access_kind_not_implemented")]
  }

  predicate Writable(regions: seq<Region>, address: nat, length: nat) {
    exists i | 0 <= i < |regions| :: CoversAccess(regions[i], address, length) && regions[i].writable
  }

  lemma ViolationDecided(r: Request, linear: nat, physical: nat, length: nat, kind: AccessKind)
    requires RegionsDisjoint(r.regions)
    ensures Decides(AccessChecks(r, linear, physical, length, kind), Violation(r, linear, physical, length, kind))
  {
    var checks := AccessChecks(r, linear, physical, length, kind);
    CoveringIsFirst(r.regions, linear, length);
    var first := FirstCovering(r.regions, linear, length);
    if first.Some? && length > 0 {
      var k :| 0 <= k < |r.regions| && r.regions[k] == first.value && CoversAccess(r.regions[k], linear, length);
      forall i | 0 <= i < |r.regions| && CoversAccess(r.regions[i], linear, length) ensures i == k { }
      assert Writable(r.regions, linear, length) <==> first.value.writable;
    }
    var k := First(checks);
    assert (k > 0 ==> !checks[0].0) && (k > 1 ==> !checks[1].0) && (k > 2 ==> !checks[2].0) && (k > 3 ==> !checks[3].0);
    assert k > 4 ==> !checks[4].0;
    if k < |checks| {
      assert IsFirstCheck(checks, k);
      assert k == 0 || k == 1 || k == 2 || k == 3 || k == 4;
    }
  }

  /** Whether a case's FS can be injected exactly: a null selector stands for the harness's own FS. */
  predicate Injectable(s: Segments, r: Request) { r.fsSelector != 0 || (s.fs.selector == 0 && s.fs.base == r.fsBase) }

  lemma InjectionExactly(s: Segments, r: Request)
    ensures FsMatches(CaseSegments(s, r), r) <==> Injectable(s, r)
  {
  }

  /** The other five segments are the harness's own; FS is its own too, or the requested one at ring 3 with the cached
      access rights dropped. */
  lemma OnlyFsChanges(s: Segments, r: Request)
    ensures (var c := CaseSegments(s, r);
             && (c.es, c.cs, c.ss, c.ds, c.gs) == (s.es, s.cs, s.ss, s.ds, s.gs)
             && c.fs == if r.fsSelector == 0 then s.fs else Segment(r.fsSelector, r.fsBase, 3, 0))
  {
  }

  /** The same descriptor, asked for from ring 3. */
  predicate DropsToUser(before: Segment, after: Segment) {
    && after.selector / 4 == before.selector / 4 && after.selector % 4 == 3
    && after.base == before.base && after.dpl == 3 && after.access == before.access
  }

  lemma OrdinarySegmentsDrop(s: Segments)
    ensures (var u := UserSegments(s);
             && DropsToUser(s.cs, u.cs) && DropsToUser(s.ss, u.ss) && DropsToUser(s.ds, u.ds) && DropsToUser(s.es, u.es)
             && u.fs == s.fs && u.gs == s.gs)
  {
  }

  /** What is observed of a case that ran to its end: the first of five objections, or the result. */
  ghost function AfterChecks(r: Request, violation: Option<string>, sawIo: bool, sawSystem: bool, sawBranch: bool, fsUnchanged: bool,
                             control: string, finalEip: nat): seq<(bool, Verdict)>
  {
    [(violation.Some?, Unsupported(if violation.Some? then violation.value else "")),
     (sawIo, Unsupported("io_not_implemented")),
     (sawSystem, Unsupported("instruction_scope_not_implemented")),
     (!fsUnchanged, Unsupported("segment_state_changed")),
     (!sawBranch && finalEip != (r.eip + r.length) % 0x1_0000_0000, Unsupported("unclassified_control_flow")),
     (true, Complete(control, "none", finalEip))]
  }

  lemma AfterDecided(r: Request, violation: Option<string>, sawIo: bool, sawSystem: bool, sawBranch: bool, fsUnchanged: bool,
                     control: string, finalEip: nat)
    ensures Decides(AfterChecks(r, violation, sawIo, sawSystem, sawBranch, fsUnchanged, control, finalEip),
                    Some(AfterVerdict(r, violation, sawIo, sawSystem, sawBranch, fsUnchanged, control, finalEip)))
  {
    var checks := AfterChecks(r, violation, sawIo, sawSystem, sawBranch, fsUnchanged, control, finalEip);
    var k := First(checks);
    assert checks[5].0;
    assert (k > 0 ==> !checks[0].0) && (k > 1 ==> !checks[1].0) && (k > 2 ==> !checks[2].0) && (k > 3 ==> !checks[3].0);
    assert k > 4 ==> !checks[4].0;
    assert IsFirstCheck(checks, k);
    assert k == 0 || k == 1 || k == 2 || k == 3 || k == 4 || k == 5;
  }

  /** A fault completes its case exactly when it is a divide error at the case's own instruction with nothing
      objectionable seen before; otherwise the recorded violation, or the vector, says what is unsupported. */
  lemma FaultExactly(r: Request, violation: Option<string>, sawIo: bool, sawSystem: bool, divide: bool, errorCode: nat,
                     previousEip: nat, vectorDetail: string)
    ensures (var v := FaultVerdict(r, violation, sawIo, sawSystem, divide, errorCode, previousEip, vectorDetail);
             && (v.Complete? <==> divide && errorCode == 0 && previousEip == r.eip && violation.None? && !sawIo && !sawSystem)
             && (v.Complete? ==> v == Complete("fault", "divide_error", r.eip))
             && (!v.Complete? ==> v.Unsupported? && Some(v.detail) == if violation.Some? then violation else Some(vectorDetail)))
  {
  }

  predicate ClearOf(region: Region, eip: nat) {
    region.address + region.length <= eip || eip + 15 <= region.address
  }

  /** A request that asks for supported features only, whose code and flags are safe, whose FS state and instruction are
      acceptable, with no declared region on the code slot and the x87 state injected exactly. */
  ghost predicate Admitted(r: Request, review: Option<string>, x87Exact: bool) {
    && (forall bit | bit in r.requirements :: bit <= 4)
    && 0x1_0000 <= r.eip <= 0xFF_FFF0
    && NoneUnsafe(r.eflags) && 1 in r.eflags
    && (if r.fsSelector == 0 then r.fsBase == 0 else r.fsSelector % 8 == 3)
    && review.None? && x87Exact
    && forall i | 0 <= i < |r.regions| :: ClearOf(r.regions[i], r.eip)
  }

  lemma AdmittedExactly(r: Request, review: Option<string>, x87Exact: bool)
    ensures Refusal(r, review, x87Exact).None? <==> Admitted(r, review, x87Exact)
  {
    RegionsClear(r.regions, r.eip);
    SupportedBits(r.requirements);
    SafeBits(r.eflags);
  }

  lemma RegionsClear(regions: seq<Region>, eip: nat)
    ensures !(exists i | 0 <= i < |regions| :: Overlaps(regions[i], eip)) <==> forall i | 0 <= i < |regions| :: ClearOf(regions[i], eip)
  {
    forall i | 0 <= i < |regions| ensures !Overlaps(regions[i], eip) <==> ClearOf(regions[i], eip) { }
  }

  /** Everything that ends the process while a request is served. */
  ghost predicate ServiceDies(busy: bool, resume: nat, input: seq<InputLine>, next: nat, s: Segments, review: Option<string>,
                        x87Exact: bool)
  {
    busy || !(0x1000 <= resume < 0x1_0000) || InputDies(input, next, s, review, x87Exact)
  }

  ghost predicate InputDies(input: seq<InputLine>, next: nat, s: Segments, review: Option<string>, x87Exact: bool) {
    input != [] &&
    match input[0]
    case Malformed(_) => true
    case Case(r) => r.sequence != next || Breaching(r) || (Admitted(r, review, x87Exact) && !Injectable(s, r))
  }

  // ----- the callbacks

  class Harness {
    var input: seq<InputLine>
    var log: seq<Line>
    var mailbox: Mailbox
    var pendingRequest: Request
    var pending: bool
    var active: bool
    var sawIo: bool
    var sawSystem: bool
    var sawBranch: bool
    var violation: Option<string>
    var control: string
    var inputEnded: bool
    var resumeEip: nat
    var nextSequence: nat
    var savedSegments: Segments
    var caseSegmentsActive: bool
    var fatal: bool
    var exited: bool
    // the CPU state the callbacks touch
    var segments: Segments
    var eip: nat
    // history
    ghost const supplied: seq<InputLine>
    ghost var served: nat
    ghost var harnessSegments: Segments
    ghost var callbacks: seq<Event>

    ghost predicate Running()
      reads this
    {
      !fatal && !exited
    }

    /** What holds while the process runs, with one case outstanding or none. */
    ghost predicate Consistent(outstanding: bool)
      reads this
    {
      && served >= (if outstanding then 1 else 0)
      && Scan(log) == (if inputEnded then Closed(served) else Open(served - if outstanding then 1 else 0))
      && (inputEnded ==> !outstanding && input == [])
      && nextSequence == Low32(served)
      && (resumeEip == 0 || RESUME_MIN <= resumeEip < TEST_ADDRESS_MIN)
      && served <= |supplied| && input == supplied[served..]
    }

    /** What every callback keeps. */
    ghost predicate Valid()
      reads this
    {
      && (Running() ==>
            && Consistent(pending)
            && (active ==> pending)
            && (caseSegmentsActive <==> pending)
            && (pending ==> pendingRequest.sequence == Low32(served - 1) && savedSegments == harnessSegments))
      && !Scan(log).Disorderly?
      && (exited ==> !pending && !active && served == |supplied| && Scan(log) == Closed(served))
    }

    /** A case has been read and is neither observed nor outstanding yet. */
    ghost predicate Between()
      reads this
    {
      Running() && Consistent(true) && !active && !pending && !caseSegmentsActive
    }

    constructor (input: seq<InputLine>, segments: Segments)
      ensures Valid() && Running() && this.input == input == supplied && this.segments == segments
      ensures log == [] && served == 0 && !pending && !active && !inputEnded
    {
      this.input, supplied, log, mailbox := input, input, [], Empty;
      pendingRequest := Request(0, 0, 0, {}, {}, 0, 0, []);
      pending, active, sawIo, sawSystem, sawBranch := false, false, false, false, false;
      violation, control := None, "fallthrough";
      inputEnded, resumeEip, nextSequence, caseSegmentsActive := false, 0, 0, false;
      savedSegments, this.segments, harnessSegments, eip := segments, segments, segments, 0;
      fatal, exited, served, callbacks := false, false, 0, [];
    }

    /** private_fatal: one last line, and the process ends. */
    method Die(detail: string)
      requires Running() && (Scan(log).Open? || Scan(log).Closed?)
      modifies this`log, this`fatal
      ensures Valid() && fatal && log == old(log) + [Fatal(detail)]
    {
      LogGrows(log, Fatal(detail));
      log := log + [Fatal(detail)];
      fatal := true;
    }

    /** One observation, for the case that was read last. */
    method Emit(sequence: nat, verdict: Verdict)
      requires served >= 1 && Scan(log) == Open(served - 1) && sequence == Low32(served - 1)
      modifies this`log
      ensures log == old(log) + [Obs(sequence, verdict)] && Scan(log) == Open(served)
    {
      LogObserves(log, served - 1, sequence, verdict);
      log := log + [Obs(sequence, verdict)];
    }

    /** prepare_case_segment_state */
    method PrepareCaseSegments() returns (ok: bool)
      requires Running() && Scan(log).Open?
      modifies this`savedSegments, this`segments, this`caseSegmentsActive, this`log, this`fatal, this`harnessSegments
      ensures ok <==> !old(caseSegmentsActive) && Injectable(old(segments), pendingRequest)
      ensures ok ==> !fatal && log == old(log) && caseSegmentsActive
      ensures ok ==> savedSegments == old(segments) == harnessSegments && segments == CaseSegments(old(segments), pendingRequest)
      ensures !ok ==> fatal && Valid()
    {
      if caseSegmentsActive {
        Die("case_segments_already_active");
        return false;
      }
      InjectionExactly(segments, pendingRequest);
      savedSegments, harnessSegments := segments, segments;
      segments := CaseSegments(segments, pendingRequest);
      caseSegmentsActive := true;
      ok := FsMatches(segments, pendingRequest);
      if !ok { Die("case_segment_injection_not_exact"); }
    }

    /** A request that was read is refused and observed at once, or it is the outstanding case. */
    ghost predicate Answered(r: Request, refusal: Option<Verdict>, before: seq<Line>, s: Segments)
      reads this
    {
      if refusal.Some? then
        log == before + [Obs(r.sequence, refusal.value)] && mailbox == Skip && !pending && segments == s
      else
        && log == before && mailbox == Execute && pending && !active && pendingRequest == r
        && savedSegments == s && segments == CaseSegments(s, r)
    }

    /** What a request leaves: the process ends, DONE is written, or the next case is refused or becomes outstanding. */
    twostate predicate Serviced(mailboxResume: nat, review: Option<string>, x87Exact: bool)
      reads this
    {
      && (fatal <==> ServiceDies(old(active || pending), if old(resumeEip) == 0 then mailboxResume else old(resumeEip),
                                 old(input), old(nextSequence), old(segments), review, x87Exact))
      && (!fatal && old(input) == [] ==>
            inputEnded && mailbox == End && log == old(log) + [Done(old(nextSequence))] && segments == old(segments))
      && (!fatal && old(input) != [] ==>
            && input == old(input)[1..] && served == old(served) + 1
            && var r := old(input)[0].request;
               && Answered(r, Refusal(r, review, x87Exact), old(log), old(segments))
               && (pending <==> Admitted(r, review, x87Exact)))
    }

    /** service_request: DONE at the end of the input, otherwise the next case is refused or becomes outstanding. */
    method ServiceRequest(mailboxResume: nat, review: Option<string>, x87Exact: bool)
      requires Valid() && Running()
      modifies this
      ensures Valid() && !exited && callbacks == old(callbacks)
      ensures Serviced(mailboxResume, review, x87Exact)
    {
      if active || pending {
        Die("guest_requested_while_case_active");
        return;
      }
      if resumeEip == 0 {
        resumeEip := mailboxResume;
        if resumeEip < RESUME_MIN || resumeEip >= TEST_ADDRESS_MIN {
          Die("guest_resume_address_invalid");
          return;
        }
      }
      ReadRequest(review, x87Exact);
    }

    /** The next line of the input, or its end. */
    method ReadRequest(review: Option<string>, x87Exact: bool)
      requires Valid() && Running() && !pending
      modifies this`input, this`inputEnded, this`log, this`mailbox, this`pendingRequest, this`pending, this`nextSequence,
               this`savedSegments, this`caseSegmentsActive, this`fatal, this`segments, this`served, this`harnessSegments
      ensures Valid()
      ensures fatal <==> InputDies(old(input), old(nextSequence), old(segments), review, x87Exact)
      ensures !fatal && old(input) == [] ==>
                inputEnded && mailbox == End && log == old(log) + [Done(old(nextSequence))] && segments == old(segments)
      ensures !fatal && old(input) != [] ==>
                && input == old(input)[1..] && served == old(served) + 1
                && (var r := old(input)[0].request;
                    && Answered(r, Refusal(r, review, x87Exact), old(log), old(segments))
                    && (pending <==> Admitted(r, review, x87Exact)))
    {
      if input == [] {
        Finish();
        return;
      }
      var line := input[0];
      if line.Malformed? {
        Die(line.detail);
        return;
      }
      var r := line.request;
      AdmittedExactly(r, review, x87Exact);
      BreachExactly(r);
      ServeCase(r, Breach(r), Refusal(r, review, x87Exact));
    }

    method Finish()
      requires Valid() && Running() && input == [] && !pending
      modifies this`log, this`inputEnded, this`mailbox
      ensures Valid() && inputEnded && mailbox == End && log == old(log) + [Done(nextSequence)]
    {
      LogCloses(log, served, nextSequence);
      log := log + [Done(nextSequence)];
      inputEnded, mailbox := true, End;
    }

    /** The sequence check and the fatal requests, then the refusal or the outstanding case. */
    method ServeCase(r: Request, breach: Option<string>, refusal: Option<Verdict>)
      requires Valid() && Running() && !pending && input != [] && input[0] == Case(r)
      modifies this`input, this`log, this`mailbox, this`pendingRequest, this`pending, this`nextSequence, this`savedSegments,
               this`caseSegmentsActive, this`fatal, this`segments, this`served, this`harnessSegments
      ensures Valid()
      ensures fatal <==> r.sequence != old(nextSequence) || breach.Some? || (refusal.None? && !Injectable(old(segments), r))
      ensures !fatal ==>
                input == old(input)[1..] && served == old(served) + 1 && Answered(r, refusal, old(log), old(segments))
    {
      var expected := nextSequence;
      NextSequence(served);
      nextSequence, served, input := Low32(nextSequence + 1), served + 1, input[1..];
      if r.sequence != expected {
        Die("private_input_sequence_invalid");
        return;
      }
      if breach.Some? {
        Die(breach.value);
        return;
      }
      if refusal.Some? { Refuse(r, refusal.value); } else { Begin(r); }
    }

    method Refuse(r: Request, verdict: Verdict)
      requires Between() && r.sequence == Low32(served - 1)
      modifies this`log, this`mailbox
      ensures Valid() && log == old(log) + [Obs(r.sequence, verdict)] && mailbox == Skip
    {
      Emit(r.sequence, verdict);
      mailbox := Skip;
    }

    method Begin(r: Request)
      requires Between() && r.sequence == Low32(served - 1)
      modifies this`log, this`mailbox, this`pendingRequest, this`pending, this`savedSegments, this`caseSegmentsActive, this`fatal,
               this`segments, this`harnessSegments
      ensures Valid() && (fatal <==> !Injectable(old(segments), r))
      ensures !fatal ==>
                && log == old(log) && mailbox == Execute && pending && pendingRequest == r
                && savedSegments == old(segments) && segments == CaseSegments(old(segments), r)
    {
      pendingRequest := r;
      var ok := PrepareCaseSegments();
      if !ok { return; }
      pending, mailbox := true, Execute;
    }

    /** The near branch into the case: ring 3 with the requested FS, or the process ends. */
    method EnterCase(userRing: bool)
      requires Valid() && Running() && pending && !active
      modifies this`segments, this`log, this`fatal
      ensures Valid() && !exited
      ensures fatal <==> !(userRing && FsMatches(old(segments), pendingRequest))
      ensures segments == UserSegments(old(segments)) && (!fatal ==> log == old(log))
    {
      segments := UserSegments(segments);
      if !userRing || !FsMatches(segments, pendingRequest) { Die("case_execution_state_not_exact"); }
    }

    /** bx_instr_before_execution at an instruction; exact says that length, opcode, bytes, mode, ring and x87 state all
        agree with the request. */
    method BeforeExecution(at: nat, exact: bool)
      requires Valid() && Running()
      modifies this`active, this`sawIo, this`sawSystem, this`sawBranch, this`violation, this`control, this`log, this`fatal, this`callbacks
      ensures callbacks == old(callbacks) + [BeforeEvent(at, exact)]
      ensures Valid() && !exited
      ensures fatal <==> old(pending && !active && at == pendingRequest.eip) && !exact
      ensures !fatal ==> log == old(log) && active == (old(active) || (pending && at == pendingRequest.eip))
      ensures !fatal && active && !old(active) ==>
                violation.None? && !sawIo && !sawSystem && !sawBranch && control == "fallthrough"
    {
      callbacks := callbacks + [BeforeEvent(at, exact)];
      if !pending || active || at != pendingRequest.eip { return; }
      Activate(exact);
    }

    method Activate(exact: bool)
      requires Valid() && Running() && pending && !active
      modifies this`active, this`sawIo, this`sawSystem, this`sawBranch, this`violation, this`control, this`log, this`fatal
      ensures Valid() && !exited
      ensures fatal <==> !exact
      ensures !fatal ==> log == old(log) && active && violation.None? && !sawIo && !sawSystem && !sawBranch
                         && control == "fallthrough"
    {
      if !exact || !caseSegmentsActive {
        Die("executed_instruction_mismatch");
        return;
      }
      active := true;
      sawIo, sawSystem, sawBranch := false, false, false;
      violation, control := None, "fallthrough";
    }

    /** The case is observed and over, and the harness goes on with its own segments at its resume address. */
    ghost predicate Concluded(before: seq<Line>, verdict: Verdict)
      reads this
    {
      && !pending && segments == harnessSegments && eip == resumeEip
      && log == before + [Obs(pendingRequest.sequence, verdict)]
    }

    /** Writes the verdict, ends the case and gives the harness its segments back. */
    method Complete(verdict: Verdict)
      requires Valid() && Running() && active
      modifies this`log, this`active, this`pending, this`segments, this`caseSegmentsActive, this`eip
      ensures Valid() && Running() && !active && Concluded(old(log), verdict)
    {
      Emit(pendingRequest.sequence, verdict);
      Restore();
    }

    /** The observed case is over: the harness goes on at its resume address with its own segments. */
    method Restore()
      requires Running() && Consistent(false) && savedSegments == harnessSegments
      modifies this`active, this`pending, this`segments, this`caseSegmentsActive, this`eip
      ensures Valid() && Running() && !active && !pending && !caseSegmentsActive
      ensures segments == harnessSegments && eip == resumeEip
    {
      active, pending := false, false;
      segments, caseSegmentsActive := savedSegments, false;
      eip := resumeEip;
    }

    /** bx_instr_after_execution */
    method AfterExecution(finalEip: nat)
      requires Valid() && Running()
      modifies this`log, this`active, this`pending, this`segments, this`caseSegmentsActive, this`eip, this`callbacks
      ensures callbacks == old(callbacks) + [AfterEvent(finalEip)]
      ensures Valid() && Running() && !active
      ensures !old(active) ==> log == old(log) && pending == old(pending) && segments == old(segments)
      ensures old(active) ==>
                Concluded(old(log), AfterVerdict(pendingRequest, violation, sawIo, sawSystem, sawBranch,
                                                 FsMatches(old(segments), pendingRequest), control, finalEip))
    {
      callbacks := callbacks + [AfterEvent(finalEip)];
      if active { Judge(finalEip); }
    }

    /** The active case has run to its end. */
    method Judge(finalEip: nat)
      requires Valid() && Running() && active
      modifies this`log, this`active, this`pending, this`segments, this`caseSegmentsActive, this`eip
      ensures Valid() && Running() && !active
      ensures Concluded(old(log), AfterVerdict(pendingRequest, violation, sawIo, sawSystem, sawBranch,
                                               FsMatches(old(segments), pendingRequest), control, finalEip))
    {
      var verdict;
      if violation.Some? {
        verdict := Unsupported(violation.value);
      } else if sawIo {
        verdict := Unsupported("io_not_implemented");
      } else if sawSystem {
        verdict := Unsupported("instruction_scope_not_implemented");
      } else if !(caseSegmentsActive && FsMatches(segments, pendingRequest)) {
        verdict := Unsupported("segment_state_changed");
      } else if !sawBranch && finalEip != Low32(pendingRequest.eip + pendingRequest.length) {
        verdict := Unsupported("unclassified_control_flow");
      } else {
        verdict := Verdict.Complete(control, "none", finalEip);
      }
      Complete(verdict);
    }

    /** bx_instr_exception */
    method Exception(divide: bool, errorCode: nat, previousEip: nat, vectorDetail: string)
      requires Valid() && Running()
      modifies this`log, this`active, this`pending, this`segments, this`caseSegmentsActive, this`eip, this`callbacks
      ensures callbacks == old(callbacks) + [ExceptionEvent(divide, errorCode, previousEip, vectorDetail)]
      ensures Valid() && Running() && !active
      ensures !old(active) ==> log == old(log) && pending == old(pending) && segments == old(segments)
      ensures old(active) ==>
                Concluded(old(log), FaultVerdict(pendingRequest, violation, sawIo, sawSystem, divide, errorCode, previousEip,
                                                 vectorDetail))
    {
      callbacks := callbacks + [ExceptionEvent(divide, errorCode, previousEip, vectorDetail)];
      if !active { return; }
      if divide && errorCode == 0 && violation.None? && !sawIo && !sawSystem && previousEip == pendingRequest.eip {
        Complete(Verdict.Complete("fault", "divide_error", previousEip));
      } else if violation.Some? {
        Complete(Unsupported(violation.value));
      } else {
        Complete(Unsupported(vectorDetail));
      }
    }

    /** bx_instr_hlt: a halt inside a case ends the case, a halt after DONE ends the process. */
    method Halt()
      requires Valid() && Running()
      modifies this`log, this`active, this`pending, this`segments, this`caseSegmentsActive, this`eip, this`exited, this`callbacks
      ensures callbacks == old(callbacks) + [HaltEvent]
      ensures Valid() && !fatal
      ensures exited <==> !old(active) && inputEnded
      ensures exited ==> log == old(log) && Scan(log) == Closed(|supplied|)
      ensures old(active) ==> !active && Concluded(old(log), Unsupported("halt_not_implemented"))
      ensures !old(active) ==> log == old(log) && pending == old(pending) && segments == old(segments)
    {
      callbacks := callbacks + [HaltEvent];
      if active {
        Complete(Unsupported("halt_not_implemented"));
        return;
      }
      if inputEnded { exited := true; }
    }

    /** bx_instr_lin_access: the first violation of a case sticks. */
    method LinearAccess(linear: nat, physical: nat, length: nat, kind: AccessKind)
      requires Valid() && Running()
      modifies this`violation, this`callbacks
      ensures callbacks == old(callbacks) + [AccessEvent(linear, physical, length, kind)]
      ensures Valid() && Running()
      ensures violation == if old(active) && old(violation).None? then Violation(pendingRequest, linear, physical, length, kind)
                           else old(violation)
    {
      callbacks := callbacks + [AccessEvent(linear, physical, length, kind)];
      if !active || violation.Some? { return; }
      if linear != physical {
        violation := Some("non_identity_memory_translation");
        return;
      }
      if length == 0 || linear + length > GUEST_RAM_END {
        violation := Some("memory_access_out_of_bounds");
        return;
      }
      var covering := FirstCovering(pendingRequest.regions, linear, length);
      if covering.None? {
        violation := Some("undeclared_memory_access");
      } else if (kind.Write? || kind.ReadWrite?) && !covering.value.writable {
        violation := Some("write_to_read_only_memory");
      } else if kind.Other? {
        violation := Some("memory_access_kind_not_implemented");
      }
    }

    /** bx_instr_outp: inside a case it is I/O, outside it may be the request signal. */
    method Output(port: nat, length: nat, value: nat, mailboxResume: nat, review: Option<string>, x87Exact: bool)
      requires Valid() && Running()
      modifies this
      ensures callbacks == old(callbacks) + [OutputEvent(port, length, value, mailboxResume, review, x87Exact)]
      ensures Valid() && !exited
      ensures old(active) ==> sawIo && !fatal && log == old(log) && pending && active && segments == old(segments)
      ensures !old(active) && port == 0xBEF0 && length == 4 && value == 0x434F_4E46 ==> Serviced(mailboxResume, review, x87Exact)
      ensures !old(active) && !(port == 0xBEF0 && length == 4 && value == 0x434F_4E46) ==>
                !fatal && log == old(log) && input == old(input) && pending == old(pending) && segments == old(segments)
    {
      callbacks := callbacks + [OutputEvent(port, length, value, mailboxResume, review, x87Exact)];
      if active {
        sawIo := true;
        return;
      }
      if port == CONTROL_PORT && length == 4 && value == SIGNAL_READY { ServiceRequest(mailboxResume, review, x87Exact); }
    }

    /** bx_instr_inp */
    method Input()
      requires Valid() && Running()
      modifies this`sawIo, this`callbacks
      ensures callbacks == old(callbacks) + [InputEvent]
      ensures Valid() && Running() && sawIo == (old(sawIo) || active)
    {
      callbacks := callbacks + [InputEvent];
      if active { sawIo := true; }
    }

    /** Interrupts, cache and TLB control, MSR writes and the like. */
    method SystemEvent()
      requires Valid() && Running()
      modifies this`sawSystem, this`callbacks
      ensures callbacks == old(callbacks) + [Event.SystemEvent]
      ensures Valid() && Running() && sawSystem == (old(sawSystem) || active)
    {
      callbacks := callbacks + [Event.SystemEvent];
      if active { sawSystem := true; }
    }

    /** A near branch: into an outstanding case it enters the case, inside a case it is classified. */
    method NearBranch(target: nat, userRing: bool, kind: Option<string>)
      requires Valid() && Running()
      modifies this`segments, this`log, this`fatal, this`sawBranch, this`sawSystem, this`control, this`callbacks
      ensures callbacks == old(callbacks) + [BranchEvent(target, userRing, kind)]
      ensures Valid() && !exited
      ensures fatal <==> old(pending && !active && target == pendingRequest.eip)
                         && !(userRing && FsMatches(old(segments), pendingRequest))
      ensures old(pending && !active && target == pendingRequest.eip) ==> segments == UserSegments(old(segments))
      ensures !old(pending && !active && target == pendingRequest.eip) ==> segments == old(segments)
      ensures !old(active) ==> sawBranch == old(sawBranch) && sawSystem == old(sawSystem) && control == old(control)
      ensures old(active) ==> sawBranch && control == (if kind.Some? then kind.value else old(control)) && sawSystem == (old(sawSystem) || kind.None?)
      ensures !fatal ==> log == old(log)
    {
      callbacks := callbacks + [BranchEvent(target, userRing, kind)];
      if pending && !active && target == pendingRequest.eip {
        EnterCase(userRing);
        return;
      }
      if !active { return; }
      sawBranch := true;
      if kind.Some? { control := kind.value; } else { sawSystem := true; }
    }

    /** bx_instr_far_branch */
    method FarBranch()
      requires Valid() && Running()
      modifies this`sawBranch, this`sawSystem, this`callbacks
      ensures callbacks == old(callbacks) + [FarBranchEvent]
      ensures Valid() && Running()
      ensures sawBranch == (old(sawBranch) || active) && sawSystem == (old(sawSystem) || active)
    {
      callbacks := callbacks + [FarBranchEvent];
      if active { sawBranch, sawSystem := true, true; }
    }

    /** Whatever the guest does to segments and instruction pointer between two callbacks. */
    method GuestRuns(segments: Segments, eip: nat)
      requires Valid() && Running()
      modifies this`segments, this`eip, this`callbacks
      ensures callbacks == old(callbacks) + [GuestEvent(segments, eip)]
      ensures Valid() && Running() && this.segments == segments && this.eip == eip
    {
      callbacks := callbacks + [GuestEvent(segments, eip)];
      this.segments, this.eip := segments, eip;
    }

    /** Any sequence of callbacks with any outcomes, until the process ends. */
    method Replay(events: seq<Event>) returns (handled: nat)
      requires Valid() && Running()
      modifies this
      ensures Valid()
      ensures handled <= |events| && callbacks == old(callbacks) + events[..handled]
      ensures handled < |events| ==> fatal || exited
      ensures exited ==> Scan(log) == Closed(|supplied|) && !pending && !active
    {
      handled := 0;
      while handled < |events| && !fatal && !exited
        invariant Valid()
        invariant handled <= |events| && callbacks == old(callbacks) + events[..handled]
        decreases |events| - handled
      {
        var e := events[handled];
        assert events[..handled + 1] == events[..handled] + [e];
        match e {
        case OutputEvent(port, length, value, resume, review, x87Exact) => Output(port, length, value, resume, review, x87Exact);
        case InputEvent => Input();
        case BeforeEvent(at, exact) => BeforeExecution(at, exact);
        case AfterEvent(finalEip) => AfterExecution(finalEip);
        case ExceptionEvent(divide, errorCode, previousEip, detail) => Exception(divide, errorCode, previousEip, detail);
        case HaltEvent => Halt();
        case AccessEvent(linear, physical, length, kind) => LinearAccess(linear, physical, length, kind);
        case SystemEvent => SystemEvent();
        case BranchEvent(target, userRing, kind) => NearBranch(target, userRing, kind);
        case FarBranchEvent => FarBranch();
        case GuestEvent(s, at) => GuestRuns(s, at);
        }
        handled := handled + 1;
      }
    }
  }

  /** One callback, with everything the CPU decides as arbitrary arguments. */
  datatype Event =
    | OutputEvent(port: nat, length: nat, value: nat, resume: nat, review: Option<string>, x87Exact: bool)
    | InputEvent
    | BeforeEvent(at: nat, exact: bool)
    | AfterEvent(finalEip: nat)
    | ExceptionEvent(divide: bool, errorCode: nat, previousEip: nat, detail: string)
    | HaltEvent
    | AccessEvent(linear: nat, physical: nat, width: nat, access: AccessKind)
    | SystemEvent
    | BranchEvent(target: nat, userRing: bool, control: Option<string>)
    | FarBranchEvent
    | GuestEvent(segments: Segments, at: nat)

  lemma NextSequence(served: nat)
    ensures Low32(Low32(served) + 1) == Low32(served + 1)
  {
  }
}
