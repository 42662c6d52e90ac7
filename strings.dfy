/** Array.prototype.join on arrays of strings. */
module Strings {

  /** The parts in order with `sep` between each adjacent pair; "" for no parts. */
  function Join(parts: seq<string>, sep: string): string
  {
    if |parts| == 0 then ""
    else if |parts| == 1 then parts[0]
    else parts[0] + sep + Join(parts[1..], sep)
  }

  /** The left-to-right accumulation that ECMAScript prescribes for join:
      each further part is appended after a separator. */
  function JoinAfter(acc: string, parts: seq<string>, sep: string): string
    decreases |parts|
  {
    if parts == [] then acc else JoinAfter(acc + sep + parts[0], parts[1..], sep)
  }

  function AccumulatedJoin(parts: seq<string>, sep: string): string
  {
    if parts == [] then "" else JoinAfter(parts[0], parts[1..], sep)
  }

  lemma {:induction false} JoinAfterIsAppend(acc: string, parts: seq<string>, sep: string)
    ensures JoinAfter(acc, parts, sep) == if parts == [] then acc else acc + sep + Join(parts, sep)
    decreases |parts|
  {
    if parts != [] {
      JoinAfterIsAppend(acc + sep + parts[0], parts[1..], sep);
      if |parts| > 1 {
        assert acc + sep + parts[0] + sep + Join(parts[1..], sep) == acc + sep + (parts[0] + sep + Join(parts[1..], sep));
      }
    }
  }

  /** Join agrees with the accumulation that defines it in ECMAScript. */
  lemma JoinMatchesAccumulation(parts: seq<string>, sep: string)
    ensures Join(parts, sep) == AccumulatedJoin(parts, sep)
  {
    if parts != [] {
      JoinAfterIsAppend(parts[0], parts[1..], sep);
    }
  }

  /** Joining two non-empty runs of parts puts exactly one separator
      between the two joined runs. */
  lemma {:induction false} JoinConcat(a: seq<string>, b: seq<string>, sep: string)
    requires a != [] && b != []
    ensures Join(a + b, sep) == Join(a, sep) + sep + Join(b, sep)
    decreases |a|
  {
    if |a| == 1 {
      assert (a + b)[1..] == b;
    } else {
      JoinConcat(a[1..], b, sep);
      assert (a + b)[1..] == a[1..] + b;
    }
  }
}
