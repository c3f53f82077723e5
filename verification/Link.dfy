/** One end of a byte connection: what the operating system does for the program. */
module Link {
  import opened Bytes

  /** `os.read`: some octets (none at the end of the stream), or an OSError. */
  datatype Chunk = Got(data: bytes) | Lost

  /** Reading an exact number of octets: all of them, end of stream first, or an OSError first. */
  datatype Fetched = Whole(data: bytes) | Ended | Broken

  function Fetch(input: bytes, lost: bool, n: nat): (Fetched, bytes) {
    if n <= |input| then (Whole(input[..n]), input[n..])
    else (if lost then Broken else Ended, [])
  }

  /** How many of the octets at hand a read of up to `n` hands over, if any are at hand: what the schedule says, at least one. */
  function Offered(plan: seq<nat>, n: nat, available: nat): (k: nat)
    ensures k <= n && k <= available && (n > 0 && available > 0 ==> k > 0)
  {
    var most := if n < available then n else available;
    if plan != [] && 0 < plan[0] < most then plan[0] else most
  }

  /** A schedule once its first entry is used up. */
  function Rest<T>(schedule: seq<T>): seq<T> {
    if schedule == [] then [] else schedule[1..]
  }

  class Endpoint {
    /** Octets the peer sends from now on, and whether the connection then fails or just ends. */
    var input: bytes
    const lost: bool
    /** How many octets each coming read hands over at most: an arbitrary short-read schedule. */
    var plan: seq<nat>
    /** Which coming waits for data time out. */
    var silent: seq<bool>
    /** Everything written so far. */
    var output: bytes

    constructor (input: bytes, lost: bool, plan: seq<nat>, silent: seq<bool>)
      ensures this.input == input && this.lost == lost && this.plan == plan && this.silent == silent
      ensures output == []
    {
      this.input, this.lost, this.plan, this.silent, output := input, lost, plan, silent, [];
    }

    method Read(n: nat) returns (r: Chunk)
      requires n > 0
      modifies this`input, this`plan
      ensures old(input) == [] ==> input == [] && plan == old(plan) && r == (if lost then Lost else Got([]))
      ensures old(input) != [] ==> r.Got? && |r.data| == Offered(old(plan), n, |old(input)|) && r.data + input == old(input)
      ensures old(input) != [] ==> plan == Rest(old(plan))
    {
      if input == [] {
        return if lost then Lost else Got([]);
      }
      var k := Offered(plan, n, |input|);
      r, input, plan := Got(input[..k]), input[k..], Rest(plan);
    }

    /** `select` with a timeout: is there anything to read in time? */
    method Select() returns (ready: bool)
      modifies this`silent
      ensures ready == (old(silent) == [] || !old(silent)[0])
      ensures silent == Rest(old(silent))
    {
      ready := silent == [] || !silent[0];
      silent := Rest(silent);
    }

    method Write(data: bytes)
      modifies this`output
      ensures output == old(output) + data
    {
      output := output + data;
    }

    /** Accumulate short reads: the result depends on the stream alone, never on the schedule. */
    method ReadExactly(count: nat) returns (r: Fetched)
      modifies this`input, this`plan
      ensures (r, input) == Fetch(old(input), lost, count)
    {
      var data: bytes := [];
      while |data| < count
        invariant |data| <= count && data + input == old(input)
        decreases count - |data|
      {
        var chunk := Read(count - |data|);
        if chunk.Lost? {
          return Broken;
        }
        if chunk.data == [] {
          return Ended;
        }
        data := data + chunk.data;
      }
      r := Whole(data);
    }
  }
}
