/** The backward funding tracer of find_dust.py, as a pure specification.

    The tracer walks the funding graph of a chain depth-first: each address of a
    frontier is screened once, a non-empty screen result stops the branch and is
    reported, and a clean address whose depth budget is not spent has its inbound
    counterparties traced one level deeper.  The two external services are
    oracles passed in as total functions:
      - `screen` is the address-screening call (empty string: nothing found);
      - `inbound` is the inbound-transaction lookup, listing the senders of funds
        in the order in which the tracer iterates over them.
    Besides the report, a run records the visited set and, as logs, the
    addresses handed to each oracle, so that "screened at most once" and "a hit
    is never looked up" can be stated. */
module FundingTrace {

  type Address = string

  /** The state threaded through a traversal: the visited set of the source,
      plus the sequence of addresses screened and of addresses whose inbound
      counterparties were looked up, each in call order. */
  datatype Run = Run(visited: set<Address>, screened: seq<Address>, expanded: seq<Address>)

  /** What a traversal produces: the report text and the state afterwards. */
  datatype Outcome = Outcome(report: string, after: Run)

  /** The state at the start of the program: nothing visited, no calls made. */
  function Initial(): Run {
    Run({}, [], [])
  }

  /** The depth-first traversal of `frontier` with `depth` levels left:
      the frontier's addresses are visited in order and their contributions
      concatenated, each visit seeing the state left by the one before. */
  function Trace(screen: Address -> string, inbound: Address -> seq<Address>,
                 depth: int, frontier: seq<Address>, run: Run): Outcome
    decreases depth, |frontier|, 1
  {
    if frontier == [] then Outcome("", run)
    else
      var prior := Trace(screen, inbound, depth, frontier[..|frontier| - 1], run);
      var step := Visit(screen, inbound, depth, frontier[|frontier| - 1], prior.after);
      Outcome(prior.report + step.report, step.after)
  }

  /** One iteration of the frontier loop, for address `a`. */
  function Visit(screen: Address -> string, inbound: Address -> seq<Address>,
                 depth: int, a: Address, run: Run): Outcome
    decreases depth, 0, 0
  {
    if a in run.visited then Outcome("", run)  // the cycle guard
    else
      var marked := run.(visited := run.visited + {a}, screened := run.screened + [a]);
      var found := screen(a);
      if found != "" then Outcome(found, marked)      // a finding stops this branch
      else if depth < 1 then Outcome(found, marked)   // depth spent: contributes ""
      else
        var looked := marked.(expanded := marked.expanded + [a]);
        var sub := Trace(screen, inbound, depth - 1, inbound(a), looked);
        Outcome(if sub.report != "" then a + " --> " + sub.report else "", sub.after)
  }

  /** No address occurs twice in `s`. */
  ghost predicate Distinct(s: seq<Address>) {
    forall i, j :: 0 <= i < j < |s| ==> s[i] != s[j]
  }

  /** `out` extends `run`: nothing left the visited set and the call logs only
      had calls appended. */
  ghost predicate Grows(run: Run, out: Run) {
    run.visited <= out.visited && run.screened <= out.screened && run.expanded <= out.expanded
  }

  /** The invariant of a run: the screened addresses are exactly the visited
      ones, none screened twice; an address is looked up at most once, and only
      after it was screened clean. */
  ghost predicate Consistent(screen: Address -> string, run: Run) {
    && Distinct(run.screened)
    && (forall a :: a in run.screened <==> a in run.visited)
    && Distinct(run.expanded)
    && (forall a :: a in run.expanded ==> a in run.screened && screen(a) == "")
  }

  /** Number of levels below the frontier the tracer may descend. */
  function Levels(depth: int): nat {
    if depth < 1 then 0 else depth
  }

  /** `a` is in `frontier` or is reached from one of its addresses by at most
      `k` steps along `inbound`. */
  ghost predicate Within(inbound: Address -> seq<Address>, frontier: seq<Address>, k: nat, a: Address)
    decreases k
  {
    a in frontier || (k > 0 && exists b :: b in frontier && Within(inbound, inbound(b), k - 1, a))
  }

  // ---------------------------------------------------------------------------
  // The visited set only grows, and the call logs only grow.

  lemma {:induction false} TraceGrows(screen: Address -> string, inbound: Address -> seq<Address>,
                                      depth: int, frontier: seq<Address>, run: Run)
    decreases depth, |frontier|, 1
    ensures Grows(run, Trace(screen, inbound, depth, frontier, run).after)
    ensures forall a :: a in frontier ==> a in Trace(screen, inbound, depth, frontier, run).after.visited
  {
    if frontier != [] {
      var init, last := frontier[..|frontier| - 1], frontier[|frontier| - 1];
      var prior := Trace(screen, inbound, depth, init, run);
      TraceGrows(screen, inbound, depth, init, run);
      VisitGrows(screen, inbound, depth, last, prior.after);
      assert frontier == init + [last];
    }
  }

  lemma {:induction false} VisitGrows(screen: Address -> string, inbound: Address -> seq<Address>,
                                      depth: int, a: Address, run: Run)
    decreases depth, 0, 0
    ensures Grows(run, Visit(screen, inbound, depth, a, run).after)
    ensures a in Visit(screen, inbound, depth, a, run).after.visited
  {
    if a !in run.visited && screen(a) == "" && depth >= 1 {
      var looked := Run(run.visited + {a}, run.screened + [a], run.expanded + [a]);
      TraceGrows(screen, inbound, depth - 1, inbound(a), looked);
    }
  }

  // ---------------------------------------------------------------------------
  // Each address is screened at most once and looked up at most once, and an
  // address with a finding is never looked up.

  lemma DistinctAppend(s: seq<Address>, a: Address)
    requires Distinct(s) && a !in s
    ensures Distinct(s + [a])
  {
  }

  lemma {:induction false} TraceConsistent(screen: Address -> string, inbound: Address -> seq<Address>,
                                           depth: int, frontier: seq<Address>, run: Run)
    requires Consistent(screen, run)
    decreases depth, |frontier|, 1
    ensures Consistent(screen, Trace(screen, inbound, depth, frontier, run).after)
  {
    if frontier != [] {
      var init := frontier[..|frontier| - 1];
      var prior := Trace(screen, inbound, depth, init, run);
      TraceConsistent(screen, inbound, depth, init, run);
      VisitConsistent(screen, inbound, depth, frontier[|frontier| - 1], prior.after);
    }
  }

  lemma {:induction false} VisitConsistent(screen: Address -> string, inbound: Address -> seq<Address>,
                                           depth: int, a: Address, run: Run)
    requires Consistent(screen, run)
    decreases depth, 0, 0
    ensures Consistent(screen, Visit(screen, inbound, depth, a, run).after)
  {
    if a !in run.visited {
      DistinctAppend(run.screened, a);
      var marked := Run(run.visited + {a}, run.screened + [a], run.expanded);
      assert Consistent(screen, marked);
      if screen(a) == "" && depth >= 1 {
        DistinctAppend(run.expanded, a);
        var looked := marked.(expanded := run.expanded + [a]);
        assert Consistent(screen, looked);
        TraceConsistent(screen, inbound, depth - 1, inbound(a), looked);
      }
    }
  }

  /** Under the invariant, the number of visited addresses is the number of
      screening calls made. */
  lemma {:induction false} DistinctCard(s: seq<Address>, v: set<Address>)
    requires Distinct(s)
    requires forall a :: a in s <==> a in v
    ensures |v| == |s|
  {
    if s == [] {
      assert forall a :: a !in v;
      assert v == {};
    } else {
      var init, last := s[..|s| - 1], s[|s| - 1];
      assert s == init + [last];
      assert forall a :: a in init <==> a in v - {last};
      DistinctCard(init, v - {last});
    }
  }

  /** The count printed at the end of the program equals the number of
      screening calls the traversal made, and no address was screened twice. */
  lemma UniqueCountIsScreenCount(screen: Address -> string, inbound: Address -> seq<Address>,
                                 depth: int, addresses: seq<Address>)
    ensures var out := Trace(screen, inbound, depth, addresses, Initial()).after;
      |out.visited| == |out.screened| && Distinct(out.screened)
  {
    TraceConsistent(screen, inbound, depth, addresses, Initial());
    var out := Trace(screen, inbound, depth, addresses, Initial()).after;
    DistinctCard(out.screened, out.visited);
  }

  /** An address whose screen result is non-empty is never looked up: no
      traversal from it happens, whatever the depth. */
  lemma FindingIsNeverExpanded(screen: Address -> string, inbound: Address -> seq<Address>,
                               depth: int, addresses: seq<Address>, a: Address)
    requires screen(a) != ""
    ensures a !in Trace(screen, inbound, depth, addresses, Initial()).after.expanded
  {
    TraceConsistent(screen, inbound, depth, addresses, Initial());
  }

  // ---------------------------------------------------------------------------
  // The cycle guard: addresses already visited are skipped entirely.

  lemma {:induction false} TraceSkipsVisited(screen: Address -> string, inbound: Address -> seq<Address>,
                                             depth: int, frontier: seq<Address>, run: Run)
    requires forall a :: a in frontier ==> a in run.visited
    ensures Trace(screen, inbound, depth, frontier, run) == Outcome("", run)
  {
    if frontier != [] {
      TraceSkipsVisited(screen, inbound, depth, frontier[..|frontier| - 1], run);
    }
  }

  // ---------------------------------------------------------------------------
  // The report is the in-order concatenation over the frontier.

  lemma {:induction false} TraceAppend(screen: Address -> string, inbound: Address -> seq<Address>,
                                       depth: int, f1: seq<Address>, f2: seq<Address>, run: Run)
    decreases |f2|
    ensures var o1 := Trace(screen, inbound, depth, f1, run);
      var o2 := Trace(screen, inbound, depth, f2, o1.after);
      Trace(screen, inbound, depth, f1 + f2, run) == Outcome(o1.report + o2.report, o2.after)
  {
    if f2 == [] {
      assert f1 + f2 == f1;
    } else {
      var init := f2[..|f2| - 1];
      assert (f1 + f2)[..|f1 + f2| - 1] == f1 + init;
      TraceAppend(screen, inbound, depth, f1, init, run);
    }
  }

  // ---------------------------------------------------------------------------
  // With the depth spent, no inbound lookup is made.

  lemma {:induction false} SpentDepthNeverLooksUp(screen: Address -> string, inbound: Address -> seq<Address>,
                                                  depth: int, frontier: seq<Address>, run: Run)
    requires depth < 1
    ensures var out := Trace(screen, inbound, depth, frontier, run);
      out.after.expanded == run.expanded
      && out.after.visited == run.visited + set a | a in frontier
  {
    if frontier != [] {
      var init, last := frontier[..|frontier| - 1], frontier[|frontier| - 1];
      SpentDepthNeverLooksUp(screen, inbound, depth, init, run);
      assert frontier == init + [last];
      assert (set a | a in frontier) == (set a | a in init) + {last};
    }
  }

  // ---------------------------------------------------------------------------
  // Depth bound: every address screened lies at most Levels(depth) inbound
  // steps behind the frontier.

  lemma WithinWider(inbound: Address -> seq<Address>, f1: seq<Address>, f2: seq<Address>,
                     k: nat, x: Address)
    requires forall b :: b in f1 ==> b in f2
    requires Within(inbound, f1, k, x)
    ensures Within(inbound, f2, k, x)
  {
  }

  lemma {:induction false} TraceWithin(screen: Address -> string, inbound: Address -> seq<Address>,
                                       depth: int, frontier: seq<Address>, run: Run)
    decreases depth, |frontier|, 1
    ensures forall x :: x in Trace(screen, inbound, depth, frontier, run).after.visited && x !in run.visited ==>
      Within(inbound, frontier, Levels(depth), x)
  {
    if frontier != [] {
      var init, last := frontier[..|frontier| - 1], frontier[|frontier| - 1];
      var prior := Trace(screen, inbound, depth, init, run);
      var out := Trace(screen, inbound, depth, frontier, run);
      TraceWithin(screen, inbound, depth, init, run);
      VisitWithin(screen, inbound, depth, last, prior.after);
      forall x | x in out.after.visited && x !in run.visited
        ensures Within(inbound, frontier, Levels(depth), x)
      {
        assert frontier == init + [last];
        if x in prior.after.visited {
          WithinWider(inbound, init, frontier, Levels(depth), x);
        } else {
          WithinWider(inbound, [last], frontier, Levels(depth), x);
        }
      }
    }
  }

  lemma {:induction false} VisitWithin(screen: Address -> string, inbound: Address -> seq<Address>,
                                       depth: int, a: Address, run: Run)
    decreases depth, 0, 0
    ensures forall x :: x in Visit(screen, inbound, depth, a, run).after.visited && x !in run.visited ==>
      Within(inbound, [a], Levels(depth), x)
  {
    if a !in run.visited && screen(a) == "" && depth >= 1 {
      var looked := Run(run.visited + {a}, run.screened + [a], run.expanded + [a]);
      TraceWithin(screen, inbound, depth - 1, inbound(a), looked);
      forall x | x in Visit(screen, inbound, depth, a, run).after.visited && x !in run.visited
        ensures Within(inbound, [a], Levels(depth), x)
      {
        if x != a {
          assert Within(inbound, inbound(a), Levels(depth) - 1, x);
          assert a in [a];
        }
      }
    }
  }

  // ---------------------------------------------------------------------------
  // Report text comes only from findings: the report is non-empty exactly when
  // some address newly visited by the traversal had a non-empty screen result.

  lemma {:induction false} TraceReportIffFinding(screen: Address -> string, inbound: Address -> seq<Address>,
                                                 depth: int, frontier: seq<Address>, run: Run)
    decreases depth, |frontier|, 1
    ensures var out := Trace(screen, inbound, depth, frontier, run);
      out.report != "" <==> exists x :: x in out.after.visited && x !in run.visited && screen(x) != ""
  {
    if frontier != [] {
      var init, last := frontier[..|frontier| - 1], frontier[|frontier| - 1];
      var prior := Trace(screen, inbound, depth, init, run);
      var step := Visit(screen, inbound, depth, last, prior.after);
      TraceReportIffFinding(screen, inbound, depth, init, run);
      VisitReportIffFinding(screen, inbound, depth, last, prior.after);
      TraceGrows(screen, inbound, depth, init, run);
      VisitGrows(screen, inbound, depth, last, prior.after);
      assert prior.report + step.report != "" <==> prior.report != "" || step.report != "" by {
        assert |prior.report + step.report| == |prior.report| + |step.report|;
      }
    }
  }

  lemma {:induction false} VisitReportIffFinding(screen: Address -> string, inbound: Address -> seq<Address>,
                                                 depth: int, a: Address, run: Run)
    decreases depth, 0, 0
    ensures var out := Visit(screen, inbound, depth, a, run);
      out.report != "" <==> exists x :: x in out.after.visited && x !in run.visited && screen(x) != ""
  {
    var out := Visit(screen, inbound, depth, a, run);
    if a !in run.visited {
      if screen(a) != "" {
        assert a in out.after.visited && a !in run.visited && screen(a) != "";
      } else if depth >= 1 {
        var looked := Run(run.visited + {a}, run.screened + [a], run.expanded + [a]);
        TraceReportIffFinding(screen, inbound, depth - 1, inbound(a), looked);
        var sub := Trace(screen, inbound, depth - 1, inbound(a), looked);
        if sub.report != "" {
          assert |a + " --> " + sub.report| > 0;
        }
      }
    }
  }

  // ---------------------------------------------------------------------------
  // Two worked runs of the tracer.

  function AlertAtB(a: Address): string {
    if a == "B" then "ALERT" else ""
  }

  function FundedByB(a: Address): seq<Address> {
    if a == "A" then ["B"] else []
  }

  /** A is clean and funded by B, B has a finding: the report is the path from
      A to B's finding, two addresses are screened and only A is looked up. */
  lemma FindingTwoLevelsBack()
    ensures Trace(AlertAtB, FundedByB, 2, ["A"], Initial())
         == Outcome("A --> ALERT", Run({"A", "B"}, ["A", "B"], ["A"]))
  {
  }

  function Clean(a: Address): string {
    ""
  }

  function SelfFunded(a: Address): seq<Address> {
    [a]
  }

  /** A funds itself: the cycle guard stops the recursion at A and the report
      is empty, with A screened once. */
  lemma SelfLoopReportsNothing()
    ensures Trace(Clean, SelfFunded, 1, ["A"], Initial()) == Outcome("", Run({"A"}, ["A"], ["A"]))
  {
  }
}
