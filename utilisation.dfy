/** The sample store, the reversed-token ingest loop of `main` and the
    percentage-over-threshold calculation of utilisation.c. */
module Utilisation {
  import opened CString

  /** Size of the token buffer `sTmp`, terminator included. */
  const MAX_STRING: nat := 64
  /** Number of slots in the sample store. */
  const MAX_INPUT_VALUES: nat := 255
  /** The threshold `main` passes to the calculation. */
  const DFLT_TRIGGER_LEVEL: real := 10.0

  datatype Option<T> = None | Some(value: T)

  /** A double as the calculation can produce it: a finite percentage, or
      the NaN of 0.0 / 0 when the store is empty. */
  datatype Percentage = Percent(value: real) | NaN

  // ---------------------------------------------------------------------
  // Counting readings at or above the trigger level

  /** How many readings are at or above `level` (the boundary is inclusive). */
  function CountAtLeast(s: seq<real>, level: real): (n: nat)
    ensures n <= |s|
  {
    if s == [] then 0
    else CountAtLeast(s[..|s| - 1], level) + (if s[|s| - 1] >= level then 1 else 0)
  }

  /** The positions of the readings that trigger. */
  function TriggeredIndices(s: seq<real>, level: real): set<nat>
  {
    set i: nat | i < |s| && s[i] >= level
  }

  /** The count is the number of triggering positions. */
  lemma {:induction false} CountIsTriggeredIndices(s: seq<real>, level: real)
    ensures CountAtLeast(s, level) == |TriggeredIndices(s, level)|
  {
    if s != [] {
      var p, last := s[..|s| - 1], |s| - 1;
      CountIsTriggeredIndices(p, level);
      var all, before := TriggeredIndices(s, level), TriggeredIndices(p, level);
      forall i: nat
        ensures i in all <==> i in before || (i == last && s[last] >= level)
      {
        if i < last {
          assert p[i] == s[i];
        }
      }
      assert last !in before;
      if s[last] >= level {
        assert all == before + {last};
      } else {
        assert all == before;
      }
    }
  }

  /** Every reading triggers exactly when the count is the number of readings. */
  lemma {:induction false} CountAllIff(s: seq<real>, level: real)
    ensures CountAtLeast(s, level) == |s| <==> forall i :: 0 <= i < |s| ==> s[i] >= level
  {
    if s != [] {
      var p := s[..|s| - 1];
      CountAllIff(p, level);
      assert forall i :: 0 <= i < |p| ==> p[i] == s[i];
    }
  }

  /** No reading triggers exactly when the count is zero. */
  lemma {:induction false} CountNoneIff(s: seq<real>, level: real)
    ensures CountAtLeast(s, level) == 0 <==> forall i :: 0 <= i < |s| ==> s[i] < level
  {
    if s != [] {
      var p := s[..|s| - 1];
      CountNoneIff(p, level);
      assert forall i :: 0 <= i < |p| ==> p[i] == s[i];
    }
  }

  /** Raising the trigger level never makes more readings trigger. */
  lemma {:induction false} CountAntitone(s: seq<real>, low: real, high: real)
    requires low <= high
    ensures CountAtLeast(s, high) <= CountAtLeast(s, low)
  {
    if s != [] {
      CountAntitone(s[..|s| - 1], low, high);
    }
  }

  // ---------------------------------------------------------------------
  // The utilisation percentage

  /** 100 * triggered / count, with the NaN that C's 0.0 / 0 yields. */
  function UsagePercent(s: seq<real>, level: real): Percentage
  {
    if |s| == 0 then NaN
    else Percent(100.0 * (CountAtLeast(s, level) as real / |s| as real))
  }

  /** A non-empty store gives a finite percentage between 0 and 100. */
  lemma UsageInRange(s: seq<real>, level: real)
    requires |s| > 0
    ensures UsagePercent(s, level).Percent?
    ensures 0.0 <= UsagePercent(s, level).value <= 100.0
  {
    var c, n := CountAtLeast(s, level) as real, |s| as real;
    assert c / n <= 1.0 by {
      assert c <= n;
    }
  }

  /** The result is 100 exactly when every reading triggers. */
  lemma UsageFullIff(s: seq<real>, level: real)
    requires |s| > 0
    ensures UsagePercent(s, level).Percent?
    ensures UsagePercent(s, level).value == 100.0 <==> forall i :: 0 <= i < |s| ==> s[i] >= level
  {
    CountAllIff(s, level);
    var c, n := CountAtLeast(s, level) as real, |s| as real;
    if 100.0 * (c / n) == 100.0 {
      assert c == n;
    }
  }

  /** The result is 0 exactly when no reading triggers. */
  lemma UsageZeroIff(s: seq<real>, level: real)
    requires |s| > 0
    ensures UsagePercent(s, level).Percent?
    ensures UsagePercent(s, level).value == 0.0 <==> forall i :: 0 <= i < |s| ==> s[i] < level
  {
    CountNoneIff(s, level);
    var c, n := CountAtLeast(s, level) as real, |s| as real;
    if 100.0 * (c / n) == 0.0 {
      assert c == 0.0;
    }
  }

  /** What the post-increment of the count does to a second calculation on
      the same store: the zero slot past the old end joins the readings, so
      with a positive trigger level and at least one trigger the second
      percentage is strictly lower than the first. */
  lemma RepeatCallDilutes(s: seq<real>, level: real)
    requires level > 0.0 && CountAtLeast(s, level) > 0
    ensures UsagePercent(s, level).Percent? && UsagePercent(s + [0.0], level).Percent?
    ensures UsagePercent(s + [0.0], level).value < UsagePercent(s, level).value
  {
    assert (s + [0.0])[..|s|] == s;
    assert CountAtLeast(s + [0.0], level) == CountAtLeast(s, level);
    var c, n := CountAtLeast(s, level) as real, |s| as real;
    FewerPerShare(c, n);
  }

  /** Sharing a positive amount among one more divides it into smaller parts. */
  lemma FewerPerShare(c: real, n: real)
    requires c > 0.0 && n > 0.0
    ensures c / (n + 1.0) < c / n
  {
    var share, smaller := c / n, c / (n + 1.0);
    assert share * n == c;
    assert smaller * (n + 1.0) == c;
    assert smaller * n < share * n;
  }

  /** A reading equal to the trigger level counts: readings 10.0, 9.9 and
      10.0 against 10.0 give two triggers out of three. */
  lemma InclusiveBoundaryExample()
    ensures CountAtLeast([10.0, 9.9, 10.0], 10.0) == 2
    ensures UsagePercent([10.0, 9.9, 10.0], 10.0) == Percent(200.0 / 3.0)
  {
    assert [10.0, 9.9, 10.0][..2] == [10.0, 9.9];
    assert [10.0, 9.9][..1] == [10.0];
  }

  /** Readings 1.0, 20.0, 15.0 and 5.0 against the default trigger level:
      two of four trigger, a utilisation of 50 percent. */
  lemma HalfUsedExample()
    ensures UsagePercent([1.0, 20.0, 15.0, 5.0], DFLT_TRIGGER_LEVEL) == Percent(50.0)
  {
    assert [1.0, 20.0, 15.0, 5.0][..3] == [1.0, 20.0, 15.0];
    assert [1.0, 20.0, 15.0][..2] == [1.0, 20.0];
    assert [1.0, 20.0][..1] == [1.0];
  }

  // ---------------------------------------------------------------------
  // Decoding one token

  /** What `sscanf` is given for token t: the token, read by `fscanf` into a
      NUL-terminated buffer and reversed there by strrev. */
  function ReversedText(t: seq<Char>): seq<Char>
  {
    Reversed(Text(t + [NUL]))
  }

  /** A token without NUL bytes is handed to the parser fully reversed. */
  lemma ReversedTextOfPlainToken(t: seq<Char>)
    requires NUL !in t
    ensures ReversedText(t) == Reversed(t)
  {
    StrLenIs(t + [NUL], |t|);
  }

  /** The token "52.0" reaches the parser as "0.25": the decimal point is
      mirrored with the digits. */
  lemma ReversedTextExample()
    ensures ReversedText(['5' as Char, '2' as Char, '.' as Char, '0' as Char])
         == ['0' as Char, '.' as Char, '2' as Char, '5' as Char]
  {
    var t: seq<Char> := ['5' as Char, '2' as Char, '.' as Char, '0' as Char];
    ReversedTextOfPlainToken(t);
    forall k | 0 <= k < 4 {
      ReversedAt(t, k);
    }
  }

  /** The slot value after the `sscanf` into it: the parsed reading, or the
      slot's previous value when the parse fails. */
  function Stored(slot: real, t: seq<Char>, decode: seq<Char> -> Option<real>): real
  {
    match decode(ReversedText(t))
    case Some(v) => v
    case None => slot
  }

  /** The readings a run over `tokens` stores: every token takes a slot, a
      token that does not parse leaves the slot's zero from the memset. */
  function Readings(tokens: seq<seq<Char>>, decode: seq<Char> -> Option<real>): (r: seq<real>)
    ensures |r| == |tokens|
    ensures forall k :: 0 <= k < |tokens| && decode(ReversedText(tokens[k])).None? ==> r[k] == 0.0
    ensures forall k :: 0 <= k < |tokens| && decode(ReversedText(tokens[k])).Some? ==>
      r[k] == decode(ReversedText(tokens[k])).value
  {
    seq(|tokens|, k requires 0 <= k < |tokens| => Stored(0.0, tokens[k], decode))
  }

  /** `fscanf(pInFile, "%s", sTmp)`: the token and its terminating NUL are
      written at the start of the buffer; the rest keeps what it held. */
  method ScanToken(buf: array<Char>, t: seq<Char>)
    requires |t| < buf.Length
    modifies buf
    ensures buf[..|t| + 1] == t + [NUL]
    ensures forall i :: |t| < i < buf.Length ==> buf[i] == old(buf[i])
  {
    forall i | 0 <= i < |t| {
      buf[i] := t[i];
    }
    buf[|t|] := NUL;
  }

  /** After the scan and strrev, the text in the buffer is the reversed token. */
  lemma ScannedTextReversed(b: seq<Char>, t: seq<Char>)
    requires |t| < |b| && b[..|t| + 1] == t + [NUL]
    ensures NUL in b && NUL in ReverseCString(b)
    ensures Text(ReverseCString(b)) == ReversedText(t)
  {
    var w := t + [NUL];
    var n := StrLen(w);
    assert forall i :: 0 <= i <= n ==> b[i] == w[i] by {
      forall i | 0 <= i <= n
        ensures b[i] == w[i]
      {
        assert b[..|t| + 1][i] == b[i];
      }
    }
    StrLenIs(b, n);
    assert Text(b) == Text(w);
    ReverseCStringKeepsLength(b);
  }

  /** The work of one loop pass up to the store: `fscanf` the token into
      sTmp, strrev it there and hand the reversed text to the parser. */
  method ScanAndDecode(sTmp: array<Char>, t: seq<Char>, decode: seq<Char> -> Option<real>)
    returns (parsed: Option<real>)
    requires |t| < sTmp.Length
    modifies sTmp
    ensures parsed == decode(ReversedText(t))
  {
    ScanToken(sTmp, t);
    ScannedTextReversed(sTmp[..], t);
    var reversed := StrRev(sTmp);
    parsed := decode(Text(reversed[..]));
  }

  // ---------------------------------------------------------------------
  // The sample store

  /** INPUT_DATA: a fixed array of readings and the count of slots in use. */
  class InputData {
    var count: int
    var vibration: array<real>

    ghost predicate Valid()
      reads this
    {
      vibration.Length == MAX_INPUT_VALUES && 0 <= count
    }

    /** The global `_InputData`, zero-initialised as static storage is. */
    constructor ()
      ensures Valid() && fresh(vibration) && count == 0
      ensures forall i :: 0 <= i < vibration.Length ==> vibration[i] == 0.0
    {
      count := 0;
      vibration := new real[MAX_INPUT_VALUES](_ => 0.0);
    }

    /** The memset of the whole structure followed by `iCount = 0`. */
    method Clear()
      requires Valid()
      modifies this`count, vibration
      ensures Valid() && count == 0
      ensures forall i :: 0 <= i < vibration.Length ==> vibration[i] == 0.0
    {
      forall i | 0 <= i < vibration.Length {
        vibration[i] := 0.0;
      }
      count := 0;
    }

    /** The REVERSED_FLOAT_IMPLEMENTATION loop of `main`: each token is
        scanned into `sTmp`, reversed there, parsed into the slot at
        `count`, and `count` moves on by one whether or not the parse
        succeeded. There is no capacity check, so the caller must not
        supply more tokens than free slots, nor tokens that overflow sTmp. */
    method IngestReversed(tokens: seq<seq<Char>>, decode: seq<Char> -> Option<real>)
      requires Valid()
      requires count + |tokens| <= MAX_INPUT_VALUES
      requires forall t :: t in tokens ==> |t| < MAX_STRING
      modifies this`count, vibration
      ensures Valid() && count == old(count) + |tokens|
      ensures forall k :: 0 <= k < |tokens| ==>
        vibration[old(count) + k] == Stored(old(vibration[count + k]), tokens[k], decode)
      ensures forall j :: 0 <= j < vibration.Length && (j < old(count) || count <= j) ==>
        vibration[j] == old(vibration[j])
    {
      var sTmp := new Char[MAX_STRING];
      var k := 0;
      while k < |tokens|
        invariant Valid() && 0 <= k <= |tokens| && count == old(count) + k
        invariant fresh(sTmp) && sTmp.Length == MAX_STRING
        invariant forall m :: 0 <= m < k ==>
          vibration[old(count) + m] == Stored(old(vibration[count + m]), tokens[m], decode)
        invariant forall j :: 0 <= j < vibration.Length && (j < old(count) || count <= j) ==>
          vibration[j] == old(vibration[j])
      {
        var parsed := ScanAndDecode(sTmp, tokens[k], decode);
        if parsed.Some? {
          vibration[count] := parsed.value;
        }
        count := count + 1;
        k := k + 1;
      }
    }

    /** dCalculatePercentageUsage: counts the readings in slots [0, count)
        at or above the trigger level and returns 100 * triggered / count.
        The division uses `count++`, so the stored count grows by one. */
    method CalculatePercentageUsage(triggerLevel: real) returns (usage: Percentage)
      requires Valid() && count <= MAX_INPUT_VALUES
      modifies this`count
      ensures Valid() && count == old(count) + 1
      ensures usage == UsagePercent(vibration[..old(count)], triggerLevel)
    {
      var i := 0;
      var triggered := 0;
      while i < count
        invariant 0 <= i <= count
        invariant triggered == CountAtLeast(vibration[..i], triggerLevel)
      {
        if vibration[i] >= triggerLevel {
          triggered := triggered + 1;
        }
        assert vibration[..i + 1][..i] == vibration[..i];
        i := i + 1;
      }
      assert vibration[..count] == vibration[..i];
      var n := count;
      count := count + 1;
      usage := if n == 0 then NaN else Percent(100.0 * (triggered as real / n as real));
    }
  }

  /** The core of `main`: clear the store, ingest the reversed tokens and
      calculate the utilisation against the default trigger level. */
  method Run(tokens: seq<seq<Char>>, decode: seq<Char> -> Option<real>) returns (usage: Percentage)
    requires |tokens| <= MAX_INPUT_VALUES
    requires forall t :: t in tokens ==> |t| < MAX_STRING
    ensures usage == UsagePercent(Readings(tokens, decode), DFLT_TRIGGER_LEVEL)
  {
    var data := new InputData();
    data.Clear();
    data.IngestReversed(tokens, decode);
    assert data.vibration[..|tokens|] == Readings(tokens, decode);
    usage := data.CalculatePercentageUsage(DFLT_TRIGGER_LEVEL);
  }

  /** `main` with the calculation called a second time on the same store.
      The first call raised the count by one, so the second also counts the
      zero slot just past the readings; with at least one trigger its
      percentage is strictly lower. The slot exists only when fewer than
      MAX_INPUT_VALUES tokens were read. */
  method RunAndRecalculate(tokens: seq<seq<Char>>, decode: seq<Char> -> Option<real>)
    returns (first: Percentage, second: Percentage)
    requires |tokens| < MAX_INPUT_VALUES
    requires forall t :: t in tokens ==> |t| < MAX_STRING
    ensures first == UsagePercent(Readings(tokens, decode), DFLT_TRIGGER_LEVEL)
    ensures second == UsagePercent(Readings(tokens, decode) + [0.0], DFLT_TRIGGER_LEVEL)
    ensures CountAtLeast(Readings(tokens, decode), DFLT_TRIGGER_LEVEL) > 0 ==>
      first.Percent? && second.Percent? && second.value < first.value
  {
    var data := new InputData();
    data.Clear();
    data.IngestReversed(tokens, decode);
    assert data.vibration[..|tokens|] == Readings(tokens, decode);
    first := data.CalculatePercentageUsage(DFLT_TRIGGER_LEVEL);
    assert data.vibration[..|tokens| + 1] == Readings(tokens, decode) + [0.0];
    second := data.CalculatePercentageUsage(DFLT_TRIGGER_LEVEL);
    if CountAtLeast(Readings(tokens, decode), DFLT_TRIGGER_LEVEL) > 0 {
      RepeatCallDilutes(Readings(tokens, decode), DFLT_TRIGGER_LEVEL);
    }
  }
}
