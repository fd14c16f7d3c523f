/** Choosing the next process to run on x86_64, for kernel and for user processes alike. */
module ProcessSelect64 {
  import opened Wrappers
  import opened Processes64
  import RR = RoundRobin

  /** A process the kernel's (or the user) scheduler may pick. */
  predicate Eligible(p: Process, user: bool) {
    p.life == Ready && if user then p.mode == UserMode && p.userEntry != 0 else p.mode == Kernel && p.entry != 0
  }

  function EligibleBits(procs: seq<Process>, user: bool): (bits: seq<bool>)
    ensures |bits| == |procs|
  {
    seq(|procs|, i requires 0 <= i < |procs| => Eligible(procs[i], user))
  }

  function AllBits(tables: seq<seq<Process>>, user: bool): (r: seq<seq<bool>>)
    ensures |r| == |tables|
  {
    seq(|tables|, i requires 0 <= i < |tables| => EligibleBits(tables[i], user))
  }

  /** A process eligible at as many consecutive selections as there are slots is selected at
      least once among them, whatever happens to the table in between. */
  lemma NoStarvation(tables: seq<seq<Process>>, cursor: nat, k: nat, user: bool)
    requires |tables| == MAX_PROCESSES && cursor < MAX_PROCESSES && k < MAX_PROCESSES
    requires forall i :: 0 <= i < |tables| ==> |tables[i]| == MAX_PROCESSES && Eligible(tables[i][k], user)
    ensures (forall h :: h in AllBits(tables, user) ==> |h| == MAX_PROCESSES)
    ensures Some(k) in RR.Selections(AllBits(tables, user), cursor, MAX_PROCESSES)
  {
    hide Eligible;
    var history := AllBits(tables, user);
    forall h | h in history ensures |h| == MAX_PROCESSES && h[k] {
      var i :| 0 <= i < |history| && history[i] == h;
      assert Eligible(tables[i][k], user);
    }
    RR.BoundedBypass(history, cursor, MAX_PROCESSES, k);
  }
}
