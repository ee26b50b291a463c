# Backward funding tracer (find_dust.py), modelled in Dafny

`find_dust.py` traces cryptocurrency funding backwards from a set of wallet
addresses. It walks depth-first: each address is screened by an external
risk service. A finding stops that branch and goes into the report. A clean
address with depth left has its inbound counterparties (the senders of funds to
it) traced one level deeper, and the report is prefixed with `"<addr> --> "`
when that deeper trace found something. A global set `viewed_addresses` guards
against cycles. At the end the program prints the report and the size of that
set.

The project has two modules:

- `FundingTrace` (`trace.dfy`) is the traversal as pure functions. `Trace`
  handles a frontier and `Visit` one address. They thread a `Run`: the visited
  set, plus logs of the addresses passed to the screening call and to the
  inbound lookup. Lemmas about `Trace` state what the program promises.
- `FindDust` (`find_dust.dfy`) is the program as it runs. The class `Tracer`
  holds `visited` (the global `viewed_addresses`) and is updated in place.
  `AddrRecurse` is `addr_recurse`: a loop over the frontier that recurses at
  `depth - 1`. It is proved equal to `Trace` from the state it starts in.
  `Scan` is the `__main__` block.

The two external services are oracles fixed for a run:
`screen: Address -> string` (empty means nothing found) and
`inbound: Address -> seq<Address>`. The program iterates over the Python set
that `get_transactions` returns. The order of that iteration is modelled as the
order of the oracle's sequence. The top-level frontier is the list of addresses
read from the command line or a file (find_dust.py:59-64), so it may contain
duplicates. The cycle guard skips them.

Two points where a description of the tracer as a set traversal and the code differ; the model
follows the code:
- the top-level frontier is a list, not a set;
- `depth` is any integer here. The command line only accepts 1 to 4, and
  `addr_recurse` itself only checks `depth < 1`.

## Model

| member | source | states |
|---|---|---|
| `FindDust.Tracer.constructor` | find_dust.py:20 | A run starts with an empty `viewed_addresses` and no external calls made |
| `FindDust.Tracer.AddrRecurse` | find_dust.py:98-118 | The report and the new visited set are exactly those of `Trace` from the old state. The visited set only grows, and afterwards every frontier address is in it |
| `FindDust.Scan` | find_dust.py:120-122 | The printed count of unique addresses equals the number of screening calls. The report is the one `Trace` gives from an empty state. It is non-empty exactly when some visited address had a finding |
| `FundingTrace.TraceGrows` | find_dust.py:102-107 | Over a frontier, nothing leaves the visited set and the call logs are only appended to. Every frontier address ends up visited |
| `FundingTrace.VisitGrows` | find_dust.py:106-116 | One loop iteration only adds to the visited set and the call logs, and leaves its address visited |
| `FundingTrace.TraceConsistent` | find_dust.py:106-116 | Invariant kept by a traversal: the screened addresses are exactly the visited ones, and none is screened twice. Each address is looked up at most once, and only after a clean screen |
| `FundingTrace.VisitConsistent` | find_dust.py:106-116 | One loop iteration keeps that invariant. The guard on line 106 is what makes the screen and lookup logs duplicate-free |
| `FundingTrace.DistinctCard` | find_dust.py:122 | A duplicate-free log that has the same members as the visited set has exactly as many entries as the set |
| `FundingTrace.UniqueCountIsScreenCount` | find_dust.py:106-122 | After a run from an empty state, `len(viewed_addresses)` equals the number of screening calls, and no address was screened twice |
| `FundingTrace.FindingIsNeverExpanded` | find_dust.py:108-110 | An address whose screen result is non-empty is never passed to the inbound lookup, whatever the depth |
| `FundingTrace.TraceSkipsVisited` | find_dust.py:106 | A frontier whose addresses are all visited contributes nothing, and the state stays the same: no screening, no lookup, no recursion |
| `FundingTrace.TraceAppend` | find_dust.py:99-116 | The report of a frontier `f1 + f2` is the report of `f1` followed by that of `f2`, where `f2` is traced from the state `f1` left. This is in-order concatenation starting from `''` |
| `FundingTrace.SpentDepthNeverLooksUp` | find_dust.py:111-112 | At `depth < 1` no inbound lookup is made. Exactly the frontier's addresses are added to the visited set |
| `FundingTrace.TraceWithin` | find_dust.py:98-118 | Every address newly visited lies at most `depth` inbound steps behind the frontier (zero steps when `depth < 1`). This bounds the nesting to `depth + 1` levels |
| `FundingTrace.VisitWithin` | find_dust.py:113-116 | The addresses visited from one address are reached through its inbound lookup, at most `depth` steps back |
| `FundingTrace.TraceReportIffFinding` | find_dust.py:109-116 | The report is non-empty exactly when some newly visited address had a non-empty screen result. A prefix `addr --> ` is never emitted alone |
| `FundingTrace.VisitReportIffFinding` | find_dust.py:109-116 | One address contributes text exactly when it, or an address traced behind it, had a finding |
| `FundingTrace.FindingTwoLevelsBack` | find_dust.py:98-118 | Depth 2 from `[A]`, A clean and funded by B, B with finding `ALERT`. The report is `A --> ALERT`, A and B are screened once each, and only A is looked up |
| `FundingTrace.SelfLoopReportsNothing` | find_dust.py:106-116 | Depth 1 from `[A]`, A clean and funded only by itself. The report is empty, A is screened once, and the recursion stops at the guard |

Termination of `Trace`, `Visit` and `AddrRecurse` is proved by their
`decreases` clauses. A recursive call is only made when `depth >= 1`, and it is
made at `depth - 1`. Within one call, the loop covers a finite frontier.

## Left out

- `screen_address` and `get_transactions` (find_dust.py:67-95) are oracles. The
  HTTP calls, the JSON response shape with its redacted field names, the fixed
  date window and the page limit of 25 (find_dust.py:18-19, 91) are not modelled.
- A failed HTTP call or a malformed response is not modelled. The screening
  oracle is total, so a failure that degrades to an empty result is just an
  empty result here. A crash is outside the model.
- The `time.sleep` rate limiting and the `count % 3` throttle (find_dust.py:68,
  89, 100, 103-105) affect timing only, so they are left out. `count` has no
  other use.
- Argument parsing, the credentials file and reading the address file
  (find_dust.py:32-64) are I/O. `Scan` takes the depth and the address list as
  parameters.
- Python's set iteration order for the result of `get_transactions` is not
  modelled. The oracle's sequence fixes one order, and every property proved
  holds for any order the oracle chooses.
- patch_update.py is not part of this model. It loads credentials and issues
  GET/PATCH requests, and its only decisions depend on the wall clock and on
  HTTP status codes.
