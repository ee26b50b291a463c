/** The tracer of find_dust.py as the program runs it: a recursive procedure
    looping over its frontier and updating the `viewed_addresses` set in place.
    Each method is proved equal to the traversal of module FundingTrace. */
module FindDust {

  import opened FundingTrace

  /** One run of the program.  `visited` is the global `viewed_addresses`; the
      ghost logs record the addresses handed to the two external services; the
      services themselves are fixed for the run. */
  class Tracer {
    const screen: Address -> string
    const inbound: Address -> seq<Address>
    var visited: set<Address>
    ghost var screened: seq<Address>
    ghost var expanded: seq<Address>

    /** The state of the run, as the specification threads it. */
    ghost function State(): Run
      reads this
    {
      Run(visited, screened, expanded)
    }

    constructor (screen: Address -> string, inbound: Address -> seq<Address>)
      ensures this.screen == screen && this.inbound == inbound
      ensures State() == Initial()
    {
      this.screen := screen;
      this.inbound := inbound;
      visited := {};
      screened := [];
      expanded := [];
    }

    /** `addr_recurse`: trace `frontier` with `depth` levels left. */
    method AddrRecurse(depth: int, frontier: seq<Address>) returns (result: string)
      modifies this
      decreases depth
      ensures Trace(screen, inbound, depth, frontier, old(State())) == Outcome(result, State())
      ensures old(visited) <= visited
      ensures forall a :: a in frontier ==> a in visited
    {
      ghost var start := State();
      result := "";
      var i := 0;
      while i < |frontier|
        invariant 0 <= i <= |frontier|
        invariant Trace(screen, inbound, depth, frontier[..i], start) == Outcome(result, State())
      {
        var addr := frontier[i];
        assert frontier[..i + 1][..i] == frontier[..i];
        ghost var before := State();
        if addr !in visited {
          visited := visited + {addr};
          screened := screened + [addr];
          var found := screen(addr);
          if found != "" {
            result := result + found;
          } else if depth < 1 {
            result := result + found;
          } else {
            expanded := expanded + [addr];
            var sub := AddrRecurse(depth - 1, inbound(addr));
            if sub != "" {
              result := result + (addr + " --> " + sub);
            }
          }
        }
        assert Visit(screen, inbound, depth, addr, before).after == State();
        i := i + 1;
      }
      assert frontier[..i] == frontier;
      TraceGrows(screen, inbound, depth, frontier, start);
    }
  }

  /** The program's entry point: trace `addresses` from an empty visited set and
      report the text and the number of unique addresses scanned. */
  method Scan(screen: Address -> string, inbound: Address -> seq<Address>,
              depth: int, addresses: seq<Address>) returns (report: string, unique: nat)
    ensures report == Trace(screen, inbound, depth, addresses, Initial()).report
    ensures unique == |Trace(screen, inbound, depth, addresses, Initial()).after.screened|
    ensures report != "" <==> exists x :: x in Trace(screen, inbound, depth, addresses, Initial()).after.visited
                                        && screen(x) != ""
  {
    var tracer := new Tracer(screen, inbound);
    report := tracer.AddrRecurse(depth, addresses);
    unique := |tracer.visited|;
    UniqueCountIsScreenCount(screen, inbound, depth, addresses);
    TraceReportIffFinding(screen, inbound, depth, addresses, Initial());
  }
}
