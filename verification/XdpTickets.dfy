/** The counting XDP programs (packet loss, byte corruption) under concurrency.
    Any number of CPUs each run: read the configured N, pass if it is zero;
    atomically add one to the shared counter; read N again and act when the
    ticket is a multiple of it. Every step is atomic on its own and steps of
    different CPUs, and of userspace writing N, interleave freely. */
module XdpTickets {
  import opened Words

  datatype Cpu = Idle | Admitted | Holding(ticket: u64)

  datatype Step =
    | Begin(cpu: nat) // first read of N
    | Take(cpu: nat)  // fetch-and-add on the counter
    | Judge(cpu: nat) // second read of N, and the verdict
    | SetN(n: u32)    // userspace arms (nonzero) or disarms (zero)

  /** A judged packet: its ticket and the N it was judged against. */
  datatype Record = Record(ticket: u64, modulus: u32)

  datatype State = State(
    n: u32,
    counter: u64,
    cpus: map<nat, Cpu>,
    taken: nat,          // tickets taken so far
    bypassed: nat,       // packets that found N zero
    judged: seq<Record>)

  function CpuOf(s: State, c: nat): Cpu {
    if c in s.cpus then s.cpus[c] else Idle
  }

  /** BPF's modulus: a zero divisor leaves the dividend. */
  function BpfMod(x: u64, m: u32): u64 {
    if m == 0 then x else x % m
  }

  /** The packet is dropped, or corrupted, exactly when this holds. */
  predicate Hit(r: Record) {
    BpfMod(r.ticket, r.modulus) == 0
  }

  /** One atomic step; a step whose CPU is not at that point is idle. */
  function Next(s: State, step: Step): State {
    match step
    case Begin(c) =>
      if CpuOf(s, c) != Idle then s
      else if s.n == 0 then s.(bypassed := s.bypassed + 1)
      else s.(cpus := s.cpus[c := Admitted])
    case Take(c) =>
      if CpuOf(s, c) != Admitted then s
      else
        var ticket := (s.counter + 1) % MODULUS;
        s.(counter := ticket, taken := s.taken + 1, cpus := s.cpus[c := Holding(ticket)])
    case Judge(c) =>
      if !CpuOf(s, c).Holding? then s
      else s.(cpus := s.cpus[c := Idle], judged := s.judged + [Record(CpuOf(s, c).ticket, s.n)])
    case SetN(n) => s.(n := n)
  }

  function Run(s: State, steps: seq<Step>): State {
    if steps == [] then s else Next(Run(s, steps[..|steps| - 1]), steps[|steps| - 1])
  }

  function Initial(n: u32): State {
    State(n, 0, map[], 0, 0, [])
  }

  ghost predicate Quiescent(s: State) {
    forall c :: CpuOf(s, c) == Idle
  }

  // ---------------------------------------------------------------------
  // Tickets 1..K are each taken once
  // ---------------------------------------------------------------------

  function JudgedTickets(judged: seq<Record>): set<int> {
    set i | 0 <= i < |judged| :: judged[i].ticket
  }

  function HeldTickets(cpus: map<nat, Cpu>): set<int> {
    set c | c in cpus && cpus[c].Holding? :: cpus[c].ticket
  }

  function UpTo(k: nat): (r: set<int>)
    ensures forall t :: t in r <==> 1 <= t <= k
  {
    if k == 0 then {} else UpTo(k - 1) + {k}
  }

  ghost predicate DistinctTickets(judged: seq<Record>) {
    forall i, j :: 0 <= i < j < |judged| ==> judged[i].ticket != judged[j].ticket
  }

  ghost predicate DistinctHolders(cpus: map<nat, Cpu>) {
    forall c, d :: c in cpus && d in cpus && c != d && cpus[c].Holding? && cpus[d].Holding? ==>
      cpus[c].ticket != cpus[d].ticket
  }

  /** The invariant of every run: the counter is the number of tickets taken,
      and every ticket up to it is held by one CPU or judged once, not both. */
  ghost predicate Inv(s: State) {
    && s.counter == s.taken
    && DistinctTickets(s.judged)
    && DistinctHolders(s.cpus)
    && JudgedTickets(s.judged) !! HeldTickets(s.cpus)
    && JudgedTickets(s.judged) + HeldTickets(s.cpus) == UpTo(s.taken)
  }

  lemma JudgedAppend(judged: seq<Record>, r: Record)
    ensures JudgedTickets(judged + [r]) == JudgedTickets(judged) + {r.ticket}
  {
    var more := judged + [r];
    assert more[|judged|] == r;
    assert forall i :: 0 <= i < |judged| ==> more[i] == judged[i];
  }

  lemma HeldUpdate(cpus: map<nat, Cpu>, c: nat, cpu: Cpu)
    requires DistinctHolders(cpus)
    ensures HeldTickets(cpus[c := cpu])
         == HeldTickets(cpus) - (if c in cpus && cpus[c].Holding? then {cpus[c].ticket} else {})
          + (if cpu.Holding? then {cpu.ticket} else {})
  {
    var after := cpus[c := cpu];
    forall t | t in HeldTickets(cpus) && !(c in cpus && cpus[c].Holding? && cpus[c].ticket == t)
      ensures t in HeldTickets(after)
    {
      var d :| d in cpus && cpus[d].Holding? && cpus[d].ticket == t;
      assert after[d] == cpus[d];
    }
    if cpu.Holding? { assert after[c].ticket == cpu.ticket; }
  }

  lemma InvStep(s: State, step: Step)
    requires Inv(s) && Next(s, step).taken < MODULUS
    ensures Inv(Next(s, step))
  {
    match step
    case Begin(c) => HeldUpdate(s.cpus, c, Admitted);
    case Take(c) => InvTake(s, c);
    case Judge(c) => InvJudge(s, c);
    case SetN(_) =>
  }

  lemma InvTake(s: State, c: nat)
    requires Inv(s) && Next(s, Take(c)).taken < MODULUS
    ensures Inv(Next(s, Take(c)))
  {
    if CpuOf(s, c).Admitted? {
      var ticket := s.taken + 1;
      HeldUpdate(s.cpus, c, Holding(ticket));
      assert ticket !in UpTo(s.taken);
      assert forall d :: d in s.cpus && s.cpus[d].Holding? ==> s.cpus[d].ticket in HeldTickets(s.cpus);
      assert UpTo(ticket) == UpTo(s.taken) + {ticket};
    }
  }

  lemma InvJudge(s: State, c: nat)
    requires Inv(s)
    ensures Inv(Next(s, Judge(c)))
  {
    if CpuOf(s, c).Holding? {
      HeldUpdate(s.cpus, c, Idle);
      JudgedAppend(s.judged, Record(s.cpus[c].ticket, s.n));
      assert s.cpus[c].ticket in HeldTickets(s.cpus);
      assert forall i :: 0 <= i < |s.judged| ==> s.judged[i].ticket in JudgedTickets(s.judged);
    }
  }

  lemma TakenGrows(s: State, step: Step)
    ensures s.taken <= Next(s, step).taken <= s.taken + 1
  {}

  /** Every interleaving keeps the invariant while fewer than 2^64 tickets
      have been taken. */
  lemma {:induction false} RunKeepsInv(n: u32, steps: seq<Step>)
    requires Run(Initial(n), steps).taken < MODULUS
    ensures Inv(Run(Initial(n), steps))
    decreases |steps|
  {
    if steps == [] {
      assert JudgedTickets([]) == {} && HeldTickets(map[]) == {} && UpTo(0) == {};
    } else {
      var before := Run(Initial(n), steps[..|steps| - 1]);
      TakenGrows(before, steps[|steps| - 1]);
      RunKeepsInv(n, steps[..|steps| - 1]);
      InvStep(before, steps[|steps| - 1]);
    }
  }

  /** When every CPU has finished its packet, the judged tickets are exactly
      1..K, each once. */
  lemma TicketsAreExact(n: u32, steps: seq<Step>)
    requires Run(Initial(n), steps).taken < MODULUS
    requires Quiescent(Run(Initial(n), steps))
    ensures var s := Run(Initial(n), steps);
            && DistinctTickets(s.judged)
            && JudgedTickets(s.judged) == UpTo(s.taken)
            && |s.judged| == s.taken
  {
    var s := Run(Initial(n), steps);
    RunKeepsInv(n, steps);
    assert HeldTickets(s.cpus) == {} by { assert forall c :: c in s.cpus ==> CpuOf(s, c) == Idle; }
    CountDistinct(s.judged, 1);
    MultiplesCount(s.taken, 1);
  }

  // ---------------------------------------------------------------------
  // Every packet is accounted for
  // ---------------------------------------------------------------------

  /** The packets that reached an idle CPU. */
  function Arrivals(n: u32, steps: seq<Step>): nat {
    if steps == [] then 0
    else
      var front, last := steps[..|steps| - 1], steps[|steps| - 1];
      Arrivals(n, front) + (if last.Begin? && CpuOf(Run(Initial(n), front), last.cpu) == Idle then 1 else 0)
  }

  function AdmittedCpus(cpus: map<nat, Cpu>): set<nat> {
    set c | c in cpus && cpus[c] == Admitted
  }

  function Accounted(s: State): nat {
    s.bypassed + s.taken + |AdmittedCpus(s.cpus)|
  }

  lemma AdmittedUpdate(cpus: map<nat, Cpu>, c: nat, cpu: Cpu)
    ensures |AdmittedCpus(cpus[c := cpu])|
         == |AdmittedCpus(cpus)| - (if c in cpus && cpus[c] == Admitted then 1 else 0)
          + (if cpu == Admitted then 1 else 0)
  {
    var rest := AdmittedCpus(cpus) - {c};
    assert AdmittedCpus(cpus) == if c in cpus && cpus[c] == Admitted then rest + {c} else rest;
    assert AdmittedCpus(cpus[c := cpu]) == if cpu == Admitted then rest + {c} else rest;
  }

  lemma AccountedStep(s: State, step: Step)
    ensures Accounted(Next(s, step)) == Accounted(s) + (if step.Begin? && CpuOf(s, step.cpu) == Idle then 1 else 0)
  {
    hide AdmittedCpus;
    match step
    case Begin(c) => AdmittedUpdate(s.cpus, c, Admitted);
    case Take(c) => AdmittedUpdate(s.cpus, c, Holding((s.counter + 1) % MODULUS));
    case Judge(c) => AdmittedUpdate(s.cpus, c, Idle);
    case SetN(_) =>
  }

  /** Conservation: in every interleaving each packet that arrived has found N
      zero, taken a ticket, or is about to take one. */
  lemma {:induction false} PacketsAreConserved(n: u32, steps: seq<Step>)
    ensures Arrivals(n, steps) == Accounted(Run(Initial(n), steps))
    decreases |steps|
  {
    hide Next, Accounted;
    if steps == [] {
      NothingAccounted(n);
    } else {
      PacketsAreConserved(n, steps[..|steps| - 1]);
      AccountedStep(Run(Initial(n), steps[..|steps| - 1]), steps[|steps| - 1]);
    }
  }

  lemma NothingAccounted(n: u32)
    ensures Accounted(Initial(n)) == 0
  {
    assert AdmittedCpus(map[]) == {};
  }

  /** So when all CPUs are done, each packet was either judged or bypassed. */
  lemma AllPacketsDecided(n: u32, steps: seq<Step>)
    requires Run(Initial(n), steps).taken < MODULUS
    requires Quiescent(Run(Initial(n), steps))
    ensures Arrivals(n, steps) == Run(Initial(n), steps).bypassed + |Run(Initial(n), steps).judged|
  {
    hide Run, Arrivals;
    var s := Run(Initial(n), steps);
    PacketsAreConserved(n, steps);
    TicketsAreExact(n, steps);
    assert AdmittedCpus(s.cpus) == {} by { assert forall c :: c in s.cpus ==> CpuOf(s, c) == Idle; }
  }

  // ---------------------------------------------------------------------
  // Counting
  // ---------------------------------------------------------------------

  predicate IsMultiple(r: Record, m: u32)
    requires m > 0
  {
    r.ticket % m == 0
  }

  function CountMultiples(judged: seq<Record>, m: u32): nat
    requires m > 0
  {
    if judged == [] then 0
    else CountMultiples(judged[..|judged| - 1], m) + (if IsMultiple(judged[|judged| - 1], m) then 1 else 0)
  }

  function MultiplesIn(tickets: set<int>, m: u32): set<int>
    requires m > 0
  {
    set t | t in tickets && t % m == 0
  }

  lemma {:induction false} CountDistinct(judged: seq<Record>, m: u32)
    requires m > 0 && DistinctTickets(judged)
    ensures CountMultiples(judged, m) == |MultiplesIn(JudgedTickets(judged), m)|
    ensures m == 1 ==> CountMultiples(judged, m) == |judged|
    decreases |judged|
  {
    if judged != [] {
      var front, last := judged[..|judged| - 1], judged[|judged| - 1];
      CountDistinct(front, m);
      assert front + [last] == judged;
      MultiplesAppend(front, last, m);
    } else {
      assert MultiplesIn(JudgedTickets(judged), m) == {};
    }
  }

  lemma MultiplesAppend(front: seq<Record>, last: Record, m: u32)
    requires m > 0 && DistinctTickets(front + [last])
    ensures |MultiplesIn(JudgedTickets(front + [last]), m)|
         == |MultiplesIn(JudgedTickets(front), m)| + (if IsMultiple(last, m) then 1 else 0)
  {
    JudgedAppend(front, last);
    var judged := front + [last];
    assert last.ticket !in JudgedTickets(front) by {
      assert judged[|front|] == last;
      assert forall i :: 0 <= i < |front| ==> front[i].ticket == judged[i].ticket != last.ticket;
    }
    MultiplesOfMore(JudgedTickets(front), last.ticket, m);
  }

  lemma MultiplesOfMore(tickets: set<int>, t: int, m: u32)
    requires m > 0 && t !in tickets
    ensures |MultiplesIn(tickets + {t}, m)| == |MultiplesIn(tickets, m)| + (if t % m == 0 then 1 else 0)
  {
    var before, after := MultiplesIn(tickets, m), MultiplesIn(tickets + {t}, m);
    if t % m == 0 {
      assert after == before + {t};
    } else {
      assert after == before;
    }
  }

  lemma {:induction false} MultiplesCount(k: nat, m: u32)
    requires m > 0
    ensures |MultiplesIn(UpTo(k), m)| == k / m
    decreases k
  {
    if k == 0 {
      assert MultiplesIn(UpTo(0), m) == {};
    } else {
      MultiplesCount(k - 1, m);
      DivStep(k, m);
      MultiplesOfMore(UpTo(k - 1), k, m);
    }
  }

  lemma DivStep(k: nat, m: nat)
    requires k > 0 && m > 0
    ensures k / m == (k - 1) / m + (if k % m == 0 then 1 else 0)
  {
    var q, r := k / m, k % m;
    assert k == q * m + r;
    if r == 0 {
      assert k - 1 == (q - 1) * m + (m - 1);
      QuotientIs(k - 1, m, q - 1, m - 1);
    } else {
      QuotientIs(k - 1, m, q, r - 1);
    }
  }

  // ---------------------------------------------------------------------
  // Exact totals
  // ---------------------------------------------------------------------

  function Hits(judged: seq<Record>): nat {
    if judged == [] then 0
    else Hits(judged[..|judged| - 1]) + (if Hit(judged[|judged| - 1]) then 1 else 0)
  }

  /** Packets whose ticket was due but that were judged after a disarm: their
      second read of N found zero. */
  function CaughtByDisarm(judged: seq<Record>, m: u32): nat
    requires m > 0
  {
    if judged == [] then 0
    else
      var last := judged[|judged| - 1];
      CaughtByDisarm(judged[..|judged| - 1], m) + (if last.modulus == 0 && IsMultiple(last, m) then 1 else 0)
  }

  /** N is only ever `m` or zero. */
  predicate Toggles(n: u32, steps: seq<Step>, m: u32) {
    && (n == 0 || n == m)
    && forall i :: 0 <= i < |steps| && steps[i].SetN? ==> steps[i].n == 0 || steps[i].n == m
  }

  lemma {:induction false} ModuliToggle(n: u32, steps: seq<Step>, m: u32)
    requires Toggles(n, steps, m)
    ensures Run(Initial(n), steps).n == 0 || Run(Initial(n), steps).n == m
    ensures forall r | r in Run(Initial(n), steps).judged :: r.modulus == 0 || r.modulus == m
    decreases |steps|
  {
    if steps != [] { ModuliToggle(n, steps[..|steps| - 1], m); }
  }

  lemma {:induction false} HitsPlusCaught(judged: seq<Record>, m: u32)
    requires m > 0
    requires forall r | r in judged :: (r.modulus == 0 || r.modulus == m) && r.ticket > 0
    ensures Hits(judged) + CaughtByDisarm(judged, m) == CountMultiples(judged, m)
    decreases |judged|
  {
    if judged != [] {
      assert judged[|judged| - 1] in judged;
      assert forall r | r in judged[..|judged| - 1] :: r in judged;
      HitsPlusCaught(judged[..|judged| - 1], m);
    }
  }

  /** Over any arm and disarm history with one nonzero setting `m` and any
      interleaving, K ticketed packets have exactly K / m hits, less those
      caught between their two reads by a disarm. */
  lemma HitsAreExact(n: u32, steps: seq<Step>, m: u32)
    requires m > 0 && Toggles(n, steps, m)
    requires Run(Initial(n), steps).taken < MODULUS
    requires Quiescent(Run(Initial(n), steps))
    ensures var s := Run(Initial(n), steps);
            Hits(s.judged) + CaughtByDisarm(s.judged, m) == s.taken / m
  {
    var s := Run(Initial(n), steps);
    TicketsAreExact(n, steps);
    ModuliToggle(n, steps, m);
    CountDistinct(s.judged, m);
    MultiplesCount(s.taken, m);
    forall r | r in s.judged ensures r.ticket > 0 {
      assert r.ticket in JudgedTickets(s.judged);
    }
    HitsPlusCaught(s.judged, m);
  }

  /** The guard of the failing branch: a CPU is about to judge a ticket that is
      due while N reads zero. */
  predicate DueAtDisarm(s: State, step: Step, m: u32)
    requires m > 0
  {
    && s.n == 0
    && step.Judge?
    && CpuOf(s, step.cpu).Holding?
    && CpuOf(s, step.cpu).ticket % m == 0
  }

  /** No step of the interleaving meets that guard. */
  ghost predicate NoneDueAtDisarm(n: u32, steps: seq<Step>, m: u32)
    requires m > 0
  {
    forall i :: 0 <= i < |steps| ==> !DueAtDisarm(Run(Initial(n), steps[..i]), steps[i], m)
  }

  lemma CaughtStep(s: State, step: Step, m: u32)
    requires m > 0
    ensures CaughtByDisarm(Next(s, step).judged, m)
         == CaughtByDisarm(s.judged, m) + (if DueAtDisarm(s, step, m) then 1 else 0)
  {
    hide CaughtByDisarm;
    if step.Judge? && CpuOf(s, step.cpu).Holding? {
      CaughtAppend(s.judged, Record(CpuOf(s, step.cpu).ticket, s.n), m);
    }
  }

  lemma CaughtAppend(judged: seq<Record>, r: Record, m: u32)
    requires m > 0
    ensures CaughtByDisarm(judged + [r], m)
         == CaughtByDisarm(judged, m) + (if r.modulus == 0 && IsMultiple(r, m) then 1 else 0)
  {
    assert (judged + [r])[..|judged|] == judged;
  }

  lemma {:induction false} NoneCaughtIff(n: u32, steps: seq<Step>, m: u32)
    requires m > 0
    ensures CaughtByDisarm(Run(Initial(n), steps).judged, m) == 0 <==> NoneDueAtDisarm(n, steps, m)
    decreases |steps|
  {
    hide Next, DueAtDisarm, CaughtByDisarm;
    if steps == [] {
      assert CaughtByDisarm([], m) == 0 by { NothingCaught(m); }
    } else {
      var front, last := steps[..|steps| - 1], steps[|steps| - 1];
      NoneCaughtIff(n, front, m);
      CaughtStep(Run(Initial(n), front), last, m);
      assert forall i :: 0 <= i < |front| ==> front[..i] == steps[..i] && front[i] == steps[i];
    }
  }

  lemma NothingCaught(m: u32)
    requires m > 0
    ensures CaughtByDisarm([], m) == 0
  {}

  /** Exactness, as a condition on the interleaving: K ticketed packets have
      K / m hits if and only if no CPU judges a due ticket while disarmed. */
  lemma HitsAreExactIff(n: u32, steps: seq<Step>, m: u32)
    requires m > 0 && Toggles(n, steps, m)
    requires Run(Initial(n), steps).taken < MODULUS
    requires Quiescent(Run(Initial(n), steps))
    ensures Hits(Run(Initial(n), steps).judged) == Run(Initial(n), steps).taken / m <==> NoneDueAtDisarm(n, steps, m)
  {
    hide Run, Hits, CaughtByDisarm, NoneDueAtDisarm, Quiescent, Toggles;
    HitsAreExact(n, steps, m);
    NoneCaughtIff(n, steps, m);
  }

  /** Userspace disarms only while no CPU is between its first read and its
      verdict. */
  ghost predicate DisarmsQuietly(n: u32, steps: seq<Step>) {
    forall i :: 0 <= i < |steps| && steps[i] == SetN(0) ==> Quiescent(Run(Initial(n), steps[..i]))
  }

  lemma QuietStep(s: State, step: Step)
    requires s.n == 0 || step == SetN(0) ==> Quiescent(s)
    ensures Next(s, step).n == 0 ==> Quiescent(Next(s, step))
  {
    if Next(s, step).n == 0 {
      assert !step.SetN? ==> CpuOf(s, step.cpu) == Idle;
      assert forall c :: CpuOf(Next(s, step), c) == CpuOf(s, c);
    }
  }

  lemma InitialIsQuiet(n: u32)
    ensures Quiescent(Initial(n))
  {}

  lemma {:induction false} DisarmedIsQuiet(n: u32, steps: seq<Step>)
    requires DisarmsQuietly(n, steps)
    ensures Run(Initial(n), steps).n == 0 ==> Quiescent(Run(Initial(n), steps))
    decreases |steps|
  {
    hide Next, Quiescent;
    if steps != [] {
      var front := steps[..|steps| - 1];
      assert forall i :: 0 <= i < |front| ==> front[..i] == steps[..i] && front[i] == steps[i];
      DisarmedIsQuiet(n, front);
      QuietStep(Run(Initial(n), front), steps[|front|]);
    } else {
      InitialIsQuiet(n);
    }
  }

  /** What a caller can do about it: whoever disarms only then has exact loss
      over any number of armed periods. */
  lemma QuietDisarmIsExact(n: u32, steps: seq<Step>, m: u32)
    requires m > 0 && Toggles(n, steps, m) && DisarmsQuietly(n, steps)
    requires Run(Initial(n), steps).taken < MODULUS
    requires Quiescent(Run(Initial(n), steps))
    ensures Hits(Run(Initial(n), steps).judged) == Run(Initial(n), steps).taken / m
  {
    hide Run, Hits;
    HitsAreExactIff(n, steps, m);
    forall i | 0 <= i < |steps| ensures !DueAtDisarm(Run(Initial(n), steps[..i]), steps[i], m) {
      assert forall j :: 0 <= j < i ==> steps[..i][..j] == steps[..j] && steps[..i][j] == steps[j];
      DisarmedIsQuiet(n, steps[..i]);
    }
  }

  predicate NeverSet(steps: seq<Step>) {
    forall i :: 0 <= i < |steps| ==> !steps[i].SetN?
  }

  /** With N constant and nonzero: exactly K / N of K packets are hit, for
      every interleaving of any number of CPUs. */
  lemma ConstantNIsExact(n: u32, steps: seq<Step>)
    requires n > 0 && NeverSet(steps)
    requires Run(Initial(n), steps).taken < MODULUS
    requires Quiescent(Run(Initial(n), steps))
    ensures Hits(Run(Initial(n), steps).judged) == Run(Initial(n), steps).taken / n
  {
    hide Run, Hits;
    QuietDisarmIsExact(n, steps, n);
  }

  /** Why the correction is needed: a disarm that lands between the two reads
      lets a packet through although its ticket was due. */
  lemma DisarmCanCatchATicket()
    ensures var s := Run(Initial(1), [Begin(0), Take(0), SetN(0), Judge(0)]);
            Quiescent(s) && s.taken == 1 && Hits(s.judged) == 0
  {
    hide Run, Hits;
    RunFour(Initial(1), Begin(0), Take(0), SetN(0), Judge(0));
    var admitted := Next(Initial(1), Begin(0));
    var holding := Next(admitted, Take(0));
    assert holding == State(1, 1, map[0 := Holding(1)], 1, 0, []);
    var s := Next(Next(holding, SetN(0)), Judge(0));
    assert s == State(0, 1, map[0 := Idle], 1, 0, [Record(1, 0)]);
    OneMiss();
  }

  lemma OneMiss()
    ensures Hits([Record(1, 0)]) == 0
  {
    assert |[Record(1, 0)][..0]| == 0 && !Hit(Record(1, 0));
  }

  lemma RunFour(s: State, a: Step, b: Step, c: Step, d: Step)
    ensures Run(s, [a, b, c, d]) == Next(Next(Next(Next(s, a), b), c), d)
  {
    hide Next;
    RunAppend(s, [], a);
    RunAppend(s, [a], b);
    RunAppend(s, [a, b], c);
    RunAppend(s, [a, b, c], d);
    assert [] + [a] == [a] && [a] + [b] == [a, b] && [a, b] + [c] == [a, b, c] && [a, b, c] + [d] == [a, b, c, d];
  }

  lemma RunAppend(s: State, steps: seq<Step>, last: Step)
    ensures Run(s, steps + [last]) == Next(Run(s, steps), last)
  {
    hide Next;
    assert (steps + [last])[..|steps|] == steps;
  }
}
