/** The statistics kept about the samples of one measurement, over all of them and over a
    sliding window held in a circular buffer. */
module ResultBuffers {
  import opened Statistics

  /** A double: a number, or not a number. */
  datatype Value = NaN | Num(v: real)

  function Minus(a: Value, b: Value): Value {
    if a == NaN || b == NaN then NaN else Num(a.v - b.v)
  }

  /** a - b for a number b, but starting over from b when a is not a number. */
  function PlusFrom(a: Value, r: real): Value {
    if a == NaN then Num(r) else Num(a.v + r)
  }

  /** The last n entries, or all of them. */
  function LastOf<T>(s: seq<T>, n: nat): (r: seq<T>)
    ensures |r| == if |s| <= n then |s| else n
  {
    if |s| <= n then s else s[|s| - n..]
  }

  /** Where entry i of the n newest ones lies, when the next one goes to pos. */
  function Slot(pos: nat, n: nat, i: nat, size: nat): int {
    if pos - n + i < 0 then pos - n + i + size else pos - n + i
  }

  /** The circular buffer holds the window, whose newest sample is just before pos. */
  ghost predicate Holds(buf: seq<Value>, pos: nat, w: seq<real>) {
    && pos < |buf| && |w| <= |buf|
    && forall i :: 0 <= i < |w| ==> buf[Slot(pos, |w|, i, |buf|)] == Num(w[i])
  }

  ghost predicate SumOf(v: Value, w: seq<real>) {
    if w == [] then v == NaN || v == Num(0.0) else v == Num(Sum(w))
  }

  /** Writing at pos and stepping on appends r, in place of the oldest sample if there is no room. */
  lemma HoldsStep(buf: seq<Value>, pos: nat, w: seq<real>, r: real)
    requires Holds(buf, pos, w)
    ensures |w| == |buf| ==> buf[pos] == Num(w[0])
    ensures Holds(buf[pos := Num(r)], if pos + 1 == |buf| then 0 else pos + 1, LastOf(w + [r], |buf|))
  {
    var w', pos' := LastOf(w + [r], |buf|), if pos + 1 == |buf| then 0 else pos + 1;
    var drop := |w| + 1 - |w'|;
    assert Slot(pos, |w|, 0, |buf|) == pos <== |w| == |buf|;
    forall i | 0 <= i < |w'| ensures buf[pos := Num(r)][Slot(pos', |w'|, i, |buf|)] == Num(w'[i]) {
      if i == |w'| - 1 {
        assert Slot(pos', |w'|, i, |buf|) == pos;
      } else {
        assert w'[i] == w[i + drop];
        assert Slot(pos', |w'|, i, |buf|) == Slot(pos, |w|, i + drop, |buf|) != pos;
      }
    }
  }

  lemma SumStep(v: Value, w: seq<real>, r: real, size: nat)
    requires SumOf(v, w) && |w| <= size && size >= 1
    ensures SumOf(PlusFrom(if |w| < size then v else Minus(v, Num(w[0])), r), LastOf(w + [r], size))
  {
    Snoc(w, r);
    if |w| == size {
      SumFront(w);
      Snoc(w[1..], r);
      assert LastOf(w + [r], size) == w[1..] + [r];
    }
  }

  /** The statistics of all samples, updated one sample at a time. */
  datatype Streamed = Streamed(last: Value, sum: Value, avg: Value, variance: Value, min: Value, max: Value)

  /** The statistics of the window. */
  datatype Windowed = Windowed(sum: Value, avg: Value, min: Value, max: Value, variance: Value)

  /** The minimum kept: statistics that start at zero never forget that zero. */
  ghost function Least(start: Value, xs: seq<real>): real
    requires xs != []
  {
    if start == NaN then Min(xs) else Min([start.v] + xs)
  }

  ghost function Greatest(start: Value, xs: seq<real>): real
    requires xs != []
  {
    if start == NaN then Max(xs) else Max([start.v] + xs)
  }

  /** The statistics of all samples so far, computed at once. */
  ghost function StreamOf(xs: seq<real>, start: Value): Streamed {
    if xs == [] then
      Streamed(start, start, start, start, start, start)
    else
      Streamed(Num(xs[|xs| - 1]), Num(Sum(xs)), Num(Mean(xs)), Num(if |xs| < 2 then 0.0 else Variance(xs)),
               Num(Least(start, xs)), Num(Greatest(start, xs)))
  }

  /** One more sample for the extremes: a start that is no number gives way to the first sample. */
  lemma ExtremesStep(start: Value, xs: seq<real>, r: real)
    ensures Least(start, xs + [r]) ==
            (var m := StreamOf(xs, start).min; if m == NaN || r < m.v then r else m.v)
    ensures Greatest(start, xs + [r]) ==
            (var m := StreamOf(xs, start).max; if m == NaN || r > m.v then r else m.v)
  {
    if xs == [] {
      assert xs + [r] == [r];
      if start != NaN {
        MinOfTwo([start.v], [r]);
        MaxOfTwo([start.v], [r]);
      }
    } else if start == NaN {
      MinOfTwo(xs, [r]);
      MaxOfTwo(xs, [r]);
    } else {
      assert [start.v] + (xs + [r]) == ([start.v] + xs) + [r];
      MinOfTwo([start.v] + xs, [r]);
      MaxOfTwo([start.v] + xs, [r]);
    }
  }

  /** Starting from zero, the minimum is that of the samples exactly if some sample is at most zero,
      and the maximum exactly if some sample is at least zero. */
  lemma {:induction false} ZeroStartExtremes(xs: seq<real>)
    requires xs != []
    ensures Least(Num(0.0), xs) == Min(xs) <==> exists x :: x in xs && x <= 0.0
    ensures Greatest(Num(0.0), xs) == Max(xs) <==> exists x :: x in xs && x >= 0.0
  {
    MinOfTwo([0.0], xs);
    MaxOfTwo([0.0], xs);
  }

  function Known(v: Value): real {
    if v == NaN then 0.0 else v.v
  }

  lemma StreamAverage(xs: seq<real>, start: Value)
    requires start == NaN || start == Num(0.0)
    ensures Known(StreamOf(xs, start).avg) == if xs == [] then 0.0 else Mean(xs)
  {}

  lemma AverageStep(xs: seq<real>, start: Value, r: real, n: real)
    requires n == |xs| as real + 1.0 && (start == NaN || start == Num(0.0))
    ensures NextAverage(Known(StreamOf(xs, start).avg), n, r) == Mean(xs + [r])
  {
    StreamAverage(xs, start);
    MeanStep(xs, r, n);
  }

  lemma VarianceNext(xs: seq<real>, start: Value, r: real, n: real)
    requires n == |xs| as real + 1.0 && xs != []
    ensures NextVariance(StreamOf(xs, start).variance.v, n, r, Mean(xs + [r])) == Variance(xs + [r])
  {
    if |xs| == 1 {
      VarianceOfTwo(xs, r, 0.0);
    } else {
      VarianceStep(xs, r);
    }
  }

  lemma {:induction false} SumNext(start: Value, xs: seq<real>, r: real)
    requires start == NaN || start == Num(0.0)
    ensures PlusFrom(StreamOf(xs, start).sum, r) == Num(Sum(xs + [r]))
  {
    Snoc(xs, r);
  }

  /** The window is the newest part of the history, and is empty only with it. */
  ghost predicate Newest(w: seq<real>, xs: seq<real>) {
    && w == LastOf(xs, |w|)
    && (xs != [] ==> w != [])
  }

  ghost predicate Inside(k: int) { true }

  class ResultBuffer {
    var circular: array<Value>
    var size: int
    var pos: int
    var samples: int
    var nSamples: int
    var stream: Streamed
    var win: Windowed

    /** All samples since the last start, the newest last. */
    ghost var history: seq<real>
    /** The samples in the buffer, the newest last. */
    ghost var window: seq<real>
    /** What the statistics started from. */
    ghost var start: Value

    /** The buffer holds the window. Only proofs that mention Inside look at how. */
    ghost predicate WindowValid()
      reads this, circular
    {
      && 1 <= size == circular.Length && 0 <= pos
      && nSamples == |window| <= size
      && forall k {:trigger Inside(k)} :: Inside(k) ==> Holds(circular[..], pos, window) && SumOf(win.sum, window)
    }

    ghost predicate Valid()
      reads this, circular
    {
      && WindowValid()
      && samples == |history| && stream == StreamOf(history, start)
      && (start == NaN || start == Num(0.0))
      && Newest(window, history)
    }

    /** An empty buffer for s samples; the statistics start at zero or as no number. */
    constructor (s: int, nanStart: bool)
      requires s >= 1
      ensures Valid() && fresh(circular) && size == s
      ensures history == [] && window == [] && start == (if nanStart then NaN else Num(0.0))
    {
      circular := new Value[s](_ => NaN);
      size := s;
      start := if nanStart then NaN else Num(0.0);
      new;
      Init(nanStart);
    }

    /** Forgets every sample. */
    method Init(nanStart: bool)
      requires size == circular.Length >= 1
      modifies this, circular
      ensures Valid() && unchanged(`circular) && unchanged(`size)
      ensures history == [] && window == [] && start == (if nanStart then NaN else Num(0.0))
    {
      FillNaN(circular);
      nSamples, samples, pos := 0, 0, 0;
      var v := if nanStart then NaN else Num(0.0);
      stream, win := Streamed(v, v, v, v, v, v), Windowed(v, v, v, v, v);
      history, window, start := [], [], v;
    }

    /** Takes in sample r, which is a number. */
    method NewSample(r: real)
      requires Valid()
      modifies this`samples, this`stream, this`history, this`nSamples, this`win, this`pos, this`window, circular
      ensures Valid()
      ensures history == old(history) + [r]
      ensures window == LastOf(old(window) + [r], size)
      ensures win == old(win).(sum := win.sum)
    {
      Stream(r);
      NewestStep(window, old(history), r, size);
      NewSampleWin(r);
    }

    /** Updates the statistics of all samples. */
    method Stream(r: real)
      requires samples == |history| && stream == StreamOf(history, start) && (start == NaN || start == Num(0.0))
      modifies this`samples, this`stream, this`history
      ensures samples == |history| && stream == StreamOf(history, start)
      ensures history == old(history) + [r]
    {
      SumNext(start, history, r);
      ExtremesStep(start, history, r);
      samples := samples + 1;
      stream := stream.(last := Num(r), sum := PlusFrom(stream.sum, r));
      StreamMoments(r);
      if stream.min == NaN || r < stream.min.v {
        stream := stream.(min := Num(r));
      }
      if stream.max == NaN || r > stream.max.v {
        stream := stream.(max := Num(r));
      }
      history := history + [r];
    }

    /** Updates the average and the variance, r being the newest of the samples counted. */
    method StreamMoments(r: real)
      requires samples == |history| + 1 && (start == NaN || start == Num(0.0))
      requires stream.avg == StreamOf(history, start).avg && stream.variance == StreamOf(history, start).variance
      modifies this`stream
      ensures stream == old(stream).(avg := StreamOf(history + [r], start).avg,
                                     variance := StreamOf(history + [r], start).variance)
    {
      var n := samples as real;
      AverageStep(history, start, r, n);
      if stream.avg == NaN {
        stream := stream.(avg := Num(0.0));
      }
      stream := stream.(avg := Num(NextAverage(stream.avg.v, n, r)));
      if samples < 2 {
        stream := stream.(variance := Num(0.0));
      } else {
        VarianceNext(history, start, r, n);
        stream := stream.(variance := Num(NextVariance(stream.variance.v, n, r, stream.avg.v)));
      }
    }

    /** Computes the statistics of the window that are not kept sample by sample. */
    method UpdateStats()
      requires Valid()
      modifies this`win
      ensures Valid()
      ensures win == WindowOf(window, win.sum, start)
    {
      Begin();
      Scan();
      Finish();
    }

    method Begin()
      requires Valid()
      modifies this`win
      ensures Valid() && win.sum == old(win.sum)
      ensures if window == [] then win == Windowed(win.sum, NaN, start, start, Num(0.0)) else Seen(win, window, 0)
    {
      assert Inside(0);
      win := win.(avg := Over(win.sum, nSamples));
      win := win.(min := stream.last, max := stream.last);
      win := win.(variance := Num(0.0));
      if window != [] { SeenNone(win, window); }
    }

    method Finish()
      requires Valid()
      requires if window == [] then win == Windowed(win.sum, NaN, start, start, Num(0.0)) else Seen(win, window, |window|)
      modifies this`win
      ensures Valid()
      ensures win == WindowOf(window, win.sum, start)
    {
      assert Inside(0);
      if window != [] { SeenAll(win, window); }
      if nSamples > 1 {
        win := win.(variance := Num(Quotient(win.variance.v, nSamples - 1)));
      } else {
        win := win.(variance := NaN);
      }
    }

    /** Goes through the window, the newest sample first. */
    method Scan()
      requires WindowValid() && (window != [] ==> Seen(win, window, 0))
      modifies this`win
      ensures WindowValid() && win.sum == old(win.sum)
      ensures window == [] ==> win == old(win)
      ensures window != [] ==> Seen(win, window, |window|)
    {
      ghost var w, k := window, 0;
      var i := 1;
      while i <= nSamples
        invariant k == i - 1 <= |w| && win.sum == old(win.sum)
        invariant w == [] ==> win == old(win)
        invariant w != [] ==> Seen(win, w, k)
      {
        k := Look(i, k);
        i := i + 1;
      }
    }

    /** Takes the i-th newest sample into account. */
    method Look(i: int, ghost k: nat) returns (ghost next: nat)
      requires WindowValid() && k + 1 == i <= |window| && Seen(win, window, k)
      modifies this`win
      ensures win.sum == old(win.sum) && next == k + 1 && Seen(win, window, next)
    {
      var x := At(i);
      SeenStep(win, window, k);
      TakeIn(x);
      next := k + 1;
    }

    method TakeIn(x: real)
      requires Numbers(win)
      modifies this`win
      ensures win == Wide(old(win), x)
    {
      if x < win.min.v {
        win := win.(min := Num(x));
      }
      if x > win.max.v {
        win := win.(max := Num(x));
      }
      win := win.(variance := Num(Wider(win.variance.v, win.avg.v, x)));
    }

    /** The i-th newest sample. */
    method At(i: int) returns (x: real)
      requires WindowValid() && 1 <= i <= |window|
      ensures x == window[|window| - i]
    {
      assert Inside(0);
      var j := pos - i;
      if j < 0 {
        j := j + size;
      }
      assert j == Slot(pos, |window|, |window| - i, size);
      assert circular[..][j] == Num(window[|window| - i]);
      x := circular[j].v;
    }

    /** Appends r to the window, which drops its oldest sample when full. */
    method NewSampleWin(r: real)
      requires WindowValid()
      modifies this`nSamples, this`win, this`pos, this`window, circular
      ensures WindowValid()
      ensures window == LastOf(old(window) + [r], size)
      ensures win == old(win).(sum := win.sum)
    {
      assert Inside(0);
      HoldsStep(circular[..], pos, window, r);
      SumStep(win.sum, window, r, size);
      AddToSum(r);
      Overwrite(r);
      window := LastOf(window + [r], size);
    }

    /** The sum with r, and without the sample that r will overwrite. */
    method AddToSum(r: real)
      requires WindowValid()
      modifies this`nSamples, this`win
      ensures win == old(win).(sum := win.sum)
      ensures nSamples == if |window| < size then |window| + 1 else size
      ensures win.sum == PlusFrom(if |window| < size then old(win.sum) else Minus(old(win.sum), Num(window[0])), r)
    {
      assert Inside(0);
      if nSamples < size {
        nSamples := nSamples + 1;
      } else {
        assert circular[..][Slot(pos, |window|, 0, size)] == Num(window[0]);
        win := win.(sum := Minus(win.sum, circular[pos]));
      }
      win := win.(sum := PlusFrom(win.sum, r));
    }

    method Overwrite(r: real)
      requires 0 <= pos < size == circular.Length
      modifies this`pos, circular
      ensures circular[..] == old(circular[..])[old(pos) := Num(r)]
      ensures pos == if old(pos) + 1 == size then 0 else old(pos) + 1
    {
      circular[pos] := Num(r);
      pos := pos + 1;
      if pos >= size {
        pos := pos - size;
      }
    }

    /** Keeps the newest samples that still fit. */
    method Resize(s: int)
      requires Valid() && s >= 1
      modifies this`circular, this`size, this`pos, this`nSamples, this`win, this`window, circular
      ensures Valid() && size == s
      ensures window == LastOf(old(window), s)
      ensures win == old(win).(sum := win.sum)
    {
      if s != size {
        NewestResized(window, history, if s < nSamples then s else nSamples);
        Rebuild(s);
      }
    }

    method Rebuild(s: int)
      requires WindowValid() && s >= 1
      modifies this`circular, this`size, this`pos, this`nSamples, this`win, this`window, circular
      ensures WindowValid() && size == s
      ensures window == LastOf(old(window), s)
      ensures win == old(win).(sum := win.sum)
    {
      assert Inside(0);
      var oldBuffer, oldPos, oldSize := circular, pos, size;
      ghost var w := window;
      var n := if s < nSamples then s else nSamples;
      Replace(s);
      Refill(oldBuffer, oldPos, oldSize, n, w);
    }

    /** Starts an empty window in a new buffer. */
    method Replace(s: int)
      requires s >= 1
      modifies this`circular, this`size, this`pos, this`nSamples, this`win, this`window
      ensures WindowValid() && window == [] && fresh(circular) && size == s
      ensures win == old(win).(sum := win.sum)
    {
      circular := new Value[s](_ => NaN);
      nSamples, pos, size := 0, 0, s;
      win := win.(sum := Num(0.0));
      window := [];
    }

    /** Appends the newest n samples of another buffer, oldest first. */
    method Refill(oldBuffer: array<Value>, oldPos: int, oldSize: int, n: int, ghost w: seq<real>)
      requires WindowValid() && window == [] && circular != oldBuffer
      requires oldPos >= 0 && oldSize == oldBuffer.Length && Holds(oldBuffer[..], oldPos, w)
      requires 0 <= n <= |w| && n <= size
      modifies this`nSamples, this`win, this`pos, this`window, circular
      ensures WindowValid() && window == LastOf(w, n)
      ensures win == old(win).(sum := win.sum)
    {
      ghost var buf, kept := oldBuffer[..], LastOf(w, n);
      for i := 0 to n
        invariant WindowValid() && oldBuffer[..] == buf
        invariant window == kept[..i] && win == old(win).(sum := win.sum)
      {
        var r := OldSample(oldBuffer, oldPos, oldSize, n, i, w);
        KeptGrows(kept, i, size);
        NewSampleWin(r);
      }
    }

    /** The i-th of the newest n samples of a buffer. */
    method OldSample(oldBuffer: array<Value>, oldPos: int, oldSize: int, n: int, i: int, ghost w: seq<real>)
      returns (r: real)
      requires oldPos >= 0 && oldSize == oldBuffer.Length && Holds(oldBuffer[..], oldPos, w)
      requires 0 <= i < n <= |w|
      ensures r == LastOf(w, n)[i]
    {
      KeptAt(oldBuffer[..], oldPos, w, n, i);
      var j := oldPos - n + i;
      if j < 0 {
        j := j + oldSize;
      }
      r := oldBuffer[j].v;
    }
  }

  /** The newest n samples, found in the buffer. */
  lemma KeptAt(buf: seq<Value>, pos: nat, w: seq<real>, n: nat, i: nat)
    requires Holds(buf, pos, w) && i < n <= |w|
    ensures 0 <= Slot(pos, n, i, |buf|) < |buf| && buf[Slot(pos, n, i, |buf|)] == Num(LastOf(w, n)[i])
  {
    assert Slot(pos, n, i, |buf|) == Slot(pos, |w|, |w| - n + i, |buf|);
  }

  lemma KeptGrows(kept: seq<real>, i: nat, s: nat)
    requires i < |kept| <= s
    ensures LastOf(kept[..i] + [kept[i]], s) == kept[..i + 1]
  {}

  lemma NewestResized(w: seq<real>, xs: seq<real>, n: nat)
    requires Newest(w, xs) && n <= |w| && (w != [] ==> n > 0)
    ensures Newest(LastOf(w, n), xs)
  {}

  lemma NewestStep(w: seq<real>, xs: seq<real>, r: real, size: nat)
    requires Newest(w, xs) && |w| <= size && size >= 1
    ensures Newest(LastOf(w + [r], size), xs + [r])
  {}

  /** Division by a count; nothing divided by no samples is not a number. */
  function Over(v: Value, n: nat): Value
    requires n == 0 ==> v == NaN || v == Num(0.0)
  {
    if v == NaN || n == 0 then NaN else Num(Quotient(v.v, n))
  }

  /** The statistics of a window, computed at once; an empty one keeps its sum. */
  ghost function WindowOf(w: seq<real>, sum: Value, start: Value): Windowed {
    if w == [] then
      Windowed(sum, NaN, start, start, NaN)
    else
      Windowed(Num(Sum(w)), Num(Mean(w)), Num(Min(w)), Num(Max(w)), if |w| < 2 then NaN else Num(Variance(w)))
  }

  /** The statistics after the k newest samples; the extremes begin with the newest one. */
  ghost predicate Seen(win: Windowed, w: seq<real>, k: nat)
    requires k <= |w| && w != []
  {
    forall d {:trigger AmongSeen(d)} :: AmongSeen(d) ==>
      && win.avg == Num(Mean(w))
      && ExtremesSeen(win.min, win.max, w[|w| - (if k == 0 then 1 else k)..])
      && SpreadSeen(win.variance, w[|w| - k..], Mean(w))
  }

  ghost predicate AmongSeen(d: int) { true }

  ghost predicate ExtremesSeen(min: Value, max: Value, t: seq<real>)
    requires t != []
  {
    min == Num(Min(t)) && max == Num(Max(t))
  }

  ghost predicate SpreadSeen(v: Value, t: seq<real>, m: real) {
    v == Num(Spread(t, m))
  }

  /** The spread with one more sample x. */
  function Wider(v: real, m: real, x: real): real {
    v + Square(m - x)
  }

  lemma SpreadSeenStep(v: Value, t: seq<real>, m: real)
    requires t != [] && SpreadSeen(v, t[1..], m)
    ensures SpreadSeen(Num(Wider(v.v, m, t[0])), t, m)
  {
    SpreadFront(t, m);
    SquareTurned(t[0], m);
  }

  lemma ExtremesSeenStep(min: Value, max: Value, t: seq<real>)
    requires |t| > 1 && ExtremesSeen(min, max, t[1..])
    ensures ExtremesSeen(if t[0] < min.v then Num(t[0]) else min, if t[0] > max.v then Num(t[0]) else max, t)
  {
    assert t == [t[0]] + t[1..];
    MinOfTwo([t[0]], t[1..]);
    MaxOfTwo([t[0]], t[1..]);
  }

  predicate Numbers(win: Windowed) {
    win.min != NaN && win.max != NaN && win.avg != NaN && win.variance != NaN
  }

  /** The statistics with one more sample x taken into account. */
  function Wide(win: Windowed, x: real): Windowed
    requires Numbers(win)
  {
    win.(min := if x < win.min.v then Num(x) else win.min, max := if x > win.max.v then Num(x) else win.max,
         variance := Num(Wider(win.variance.v, win.avg.v, x)))
  }

  lemma SeenNone(win: Windowed, w: seq<real>)
    requires w != [] && win.avg == Num(Mean(w)) && win.min == win.max == Num(w[|w| - 1]) && win.variance == Num(0.0)
    ensures Seen(win, w, 0)
  {
    assert AmongSeen(0);
    assert w[|w| - 1..] == [w[|w| - 1]];
  }

  lemma {:induction false} SeenAll(win: Windowed, w: seq<real>)
    requires w != [] && Seen(win, w, |w|)
    ensures win.avg == Num(Mean(w)) && win.min == Num(Min(w)) && win.max == Num(Max(w))
    ensures win.variance == Num(Spread(w, Mean(w)))
    ensures |w| >= 2 ==> Quotient(win.variance.v, |w| - 1) == Variance(w)
  {
    assert AmongSeen(0);
    assert w[0..] == w;
  }

  function Quotient(x: real, n: nat): real
    requires n > 0
  {
    x / n as real
  }

  lemma SeenStep(win: Windowed, w: seq<real>, k: nat)
    requires w != [] && k < |w| && Seen(win, w, k)
    ensures Numbers(win) && Seen(Wide(win, w[|w| - 1 - k]), w, k + 1)
  {
    assert AmongSeen(0);
    var t := w[|w| - 1 - k..];
    assert t[1..] == w[|w| - k..];
    SpreadSeenStep(win.variance, t, Mean(w));
    if k > 0 {
      ExtremesSeenStep(win.min, win.max, t);
    }
  }

  lemma SquareTurned(a: real, b: real)
    ensures Square(a - b) == Square(b - a)
  {}

  method FillNaN(a: array<Value>)
    modifies a
  {
    for i := 0 to a.Length {
      a[i] := NaN;
    }
  }
}
