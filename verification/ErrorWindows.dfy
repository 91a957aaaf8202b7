/**
 * Two sliding error counters with one specification: the deque of `ErrorCounter`
 * (error_counter.hpp) and the ring buffer of the IMU main loop (mpu9150_node.cpp).
 */
module ErrorWindows {

  function Good(n: nat): (r: seq<bool>)
    ensures |r| == n
  {
    seq(n, _ => true)
  }

  /** The last n results; before the first result everything counts as good. */
  function Window(history: seq<bool>, n: nat): (w: seq<bool>)
    ensures |w| == n
  {
    (Good(n) + history)[|history|..]
  }

  function Failures(results: seq<bool>): (n: nat)
    ensures n <= |results|
  {
    if results == [] then 0 else Failures(results[1..]) + (if results[0] then 0 else 1)
  }

  lemma {:induction false} FailuresConcat(a: seq<bool>, b: seq<bool>)
    ensures Failures(a + b) == Failures(a) + Failures(b)
    decreases |a|
  {
    if a == [] {
      assert a + b == b;
    } else {
      assert (a + b)[1..] == a[1..] + b;
      FailuresConcat(a[1..], b);
    }
  }

  lemma {:induction false} NoFailures(n: nat)
    ensures Failures(Good(n)) == 0
  {
    if n > 0 {
      assert Good(n)[1..] == Good(n - 1);
      NoFailures(n - 1);
    }
  }

  /** Entry i of the window is the result registered n - i calls ago, and good if there was none. */
  lemma WindowMeaning(history: seq<bool>, n: nat, i: nat)
    requires i < n
    ensures Window(history, n)[i] == (|history| + i < n || history[|history| + i - n])
  {
  }

  /** The failures are the bad results, counted. */
  lemma {:induction false} FailuresCounted(results: seq<bool>)
    ensures Failures(results) == multiset(results)[false]
    decreases |results|
  {
    if results != [] {
      FailuresCounted(results[1..]);
      assert results == [results[0]] + results[1..];
    }
  }

  lemma FailurePositive(results: seq<bool>)
    requires results != [] && !results[0]
    ensures Failures(results) > 0
  {
  }

  /** Registering a result pushes the oldest one out of the window. */
  lemma WindowSlides(history: seq<bool>, n: nat, result: bool)
    requires n > 0
    ensures Window(history + [result], n) == Window(history, n)[1..] + [result]
    ensures Failures(Window(history + [result], n))
         == Failures(Window(history, n)) - (if Window(history, n)[0] then 0 else 1) + (if result then 0 else 1)
  {
    var w := Window(history, n);
    assert Good(n) + (history + [result]) == (Good(n) + history) + [result];
    assert Window(history + [result], n) == w[1..] + [result];
    FailuresConcat(w[1..], [result]);
  }

  class ErrorCounter {
    var buffer: seq<bool>
    var errorCount: nat
    const bufferSize: nat
    ghost var history: seq<bool>

    constructor (bufferSize: nat)
      requires 0 < bufferSize <= 0xFFFF_FFFF
      ensures Valid() && history == [] && this.bufferSize == bufferSize
    {
      this.bufferSize := bufferSize;
      buffer := Good(bufferSize);
      errorCount := 0;
      history := [];
      NoFailures(bufferSize);
    }

    ghost predicate Valid()
      reads this
    {
      0 < bufferSize <= 0xFFFF_FFFF &&
      buffer == Window(history, bufferSize) &&
      errorCount == Failures(Window(history, bufferSize))
    }

    method Register(result: bool)
      requires Valid()
      modifies this
      ensures Valid() && history == old(history) + [result]
    {
      WindowSlides(history, bufferSize, result);
      if !result {
        errorCount := errorCount + 1;
      }
      if |buffer| == bufferSize {
        if !buffer[0] {
          errorCount := errorCount - 1;
        }
        buffer := buffer[1..];
      }
      buffer := buffer + [result];
      history := history + [result];
    }

    /** The number of bad results among the last bufferSize ones, which never exceeds bufferSize. */
    method GetErrorCount() returns (n: nat)
      requires Valid()
      ensures n == multiset(Window(history, bufferSize))[false] <= bufferSize
    {
      FailuresCounted(Window(history, bufferSize));
      n := errorCount;
    }
  }

  /** kCycleOverBufferNum */
  const CYCLE_OVER_BUFFER_NUM := 100

  class CycleOverRing {
    const cycleOverBuffer: array<bool>
    var bufferPosition: nat
    var cycleOverCount: nat
    ghost var history: seq<bool>

    constructor ()
      ensures Valid() && history == [] && fresh(cycleOverBuffer)
    {
      cycleOverBuffer := new bool[CYCLE_OVER_BUFFER_NUM](_ => false);
      bufferPosition, cycleOverCount := 0, 0;
      history := [];
      new;
      NoFailures(CYCLE_OVER_BUFFER_NUM);
      assert Window([], CYCLE_OVER_BUFFER_NUM) == Good(CYCLE_OVER_BUFFER_NUM);
    }

    /** The ring read from its oldest entry: entry i of the window sits i places after the position. */
    ghost predicate Valid()
      reads this, cycleOverBuffer
    {
      cycleOverBuffer.Length == CYCLE_OVER_BUFFER_NUM && bufferPosition < CYCLE_OVER_BUFFER_NUM &&
      (forall i :: 0 <= i < CYCLE_OVER_BUFFER_NUM ==>
        cycleOverBuffer[Slot(i)] == !Window(history, CYCLE_OVER_BUFFER_NUM)[i]) &&
      cycleOverCount == Failures(Window(history, CYCLE_OVER_BUFFER_NUM))
    }

    function Slot(i: nat): nat
      reads this`bufferPosition
      requires bufferPosition < CYCLE_OVER_BUFFER_NUM && i < CYCLE_OVER_BUFFER_NUM
    {
      if bufferPosition + i < CYCLE_OVER_BUFFER_NUM then bufferPosition + i
      else bufferPosition + i - CYCLE_OVER_BUFFER_NUM
    }

    /** One cycle: `over` if it took longer than the tolerance. The uint8_t count stays in 0..100. */
    method Register(over: bool)
      requires Valid()
      modifies this, cycleOverBuffer
      ensures Valid() && history == old(history) + [!over]
      ensures cycleOverCount == multiset(Window(history, 100))[false] <= 100
    {
      hide Window;
      hide Failures;
      WindowSlides(history, CYCLE_OVER_BUFFER_NUM, !over);
      FailuresCounted(Window(history + [!over], CYCLE_OVER_BUFFER_NUM));
      ghost var w := Window(history, CYCLE_OVER_BUFFER_NUM);
      assert cycleOverBuffer[Slot(0)] == !w[0];
      if over {
        if !cycleOverBuffer[bufferPosition] {
          cycleOverCount := cycleOverCount + 1;
        }
        cycleOverBuffer[bufferPosition] := true;
      } else {
        if cycleOverBuffer[bufferPosition] {
          FailurePositive(w);
          cycleOverCount := cycleOverCount - 1;
        }
        cycleOverBuffer[bufferPosition] := false;
      }
      bufferPosition := bufferPosition + 1;
      if bufferPosition == CYCLE_OVER_BUFFER_NUM {
        bufferPosition := 0;
      }
      history := history + [!over];
      forall i | 0 <= i < CYCLE_OVER_BUFFER_NUM
        ensures cycleOverBuffer[Slot(i)] == !(w[1..] + [!over])[i]
      {
        assert i < CYCLE_OVER_BUFFER_NUM - 1 ==> Slot(i) == old(Slot(i + 1));
      }
    }
  }
}
