/** The progress-tracking reader that wraps the upload body: it passes every read of the
    underlying source through unchanged, counts the bytes, and now and then draws a
    20-cell progress bar. The underlying source is the list of answers it will give;
    the clock is a parameter; what is drawn on the diagnostic stream is a list of frames. */
module Progress {
  import opened Options

  /** Number of cells in the bar. */
  const BarWidth: nat := 20

  /** Minimum time between two ordinary redraws, in nanoseconds (150 ms). */
  const RenderInterval: int := 150 * 1000 * 1000

  /** The error part of one answer of the underlying source. */
  datatype ReadError = NoError | EndOfFile | ReadFailure

  /** One answer of the underlying source: a byte count and an error value. */
  datatype Chunk = Chunk(n: nat, err: ReadError)

  /** A line drawn on the diagnostic stream: an ordinary progress line (its bar and the
      byte count the percentage is computed from), or the final "sent" line. */
  datatype Frame = Partial(bar: string, read: nat) | Sent(bar: string)

  /** Bytes the source still has to deliver. */
  function Pending(chunks: seq<Chunk>): (bytes: nat) {
    if chunks == [] then 0 else chunks[0].n + Pending(chunks[1..])
  }

  /** Number of filled cells: the percentage divided by the width of one cell
      (100 / 20 = 5 percent), rounded down, capped at the bar width. */
  function Filled(read: nat, total: nat): (k: nat)
    requires total > 0
    ensures k <= BarWidth
  {
    var q := read * BarWidth / total;
    if q > BarWidth then BarWidth else q
  }

  /** `n` copies of `c`. */
  function Repeat(c: char, n: nat): (s: seq<char>)
    ensures |s| == n
  {
    if n == 0 then [] else [c] + Repeat(c, n - 1)
  }

  /** The bar with `k` filled cells: `k` '=' followed by blanks up to the full width. */
  function Bar(k: nat): (b: string)
    requires k <= BarWidth
    ensures |b| == BarWidth
  {
    Repeat('=', k) + Repeat(' ', BarWidth - k)
  }

  /** How often `c` occurs in `s`. */
  function Count(s: string, c: char): (count: nat) {
    if s == [] then 0 else (if s[0] == c then 1 else 0) + Count(s[1..], c)
  }

  /** Whether a read that delivered bytes redraws the bar: the first one always does
      (Go's zero time lies long before any clock reading), later ones when at least
      the interval has passed since the last redraw or the last byte has just arrived. */
  predicate RenderDue(lastTick: Option<int>, now: int, read: nat, total: nat) {
    lastTick.None? || now - lastTick.value >= RenderInterval || read == total
  }

  lemma {:induction false} RepeatAt(c: char, n: nat, i: nat)
    requires i < n
    ensures Repeat(c, n)[i] == c
  {
    if i > 0 {
      RepeatAt(c, n - 1, i - 1);
    }
  }

  /** Cell `i` of the bar is '=' exactly when it lies among the first `k`. */
  lemma BarAt(k: nat, i: nat)
    requires k <= BarWidth && i < BarWidth
    ensures Bar(k)[i] == if i < k then '=' else ' '
  {
    if i < k {
      RepeatAt('=', k, i);
    } else {
      RepeatAt(' ', BarWidth - k, i - k);
    }
  }

  lemma {:induction false} CountAppend(a: string, b: string, c: char)
    ensures Count(a + b, c) == Count(a, c) + Count(b, c)
  {
    if a != [] {
      assert (a + b)[1..] == a[1..] + b;
      CountAppend(a[1..], b, c);
    } else {
      assert a + b == b;
    }
  }

  lemma {:induction false} CountRepeat(c: char, d: char, n: nat)
    ensures Count(Repeat(c, n), d) == if c == d then n else 0
  {
    if n > 0 {
      assert Repeat(c, n)[1..] == Repeat(c, n - 1);
      CountRepeat(c, d, n - 1);
    }
  }

  /** The bar with `k` filled cells holds exactly `k` '=' and `20 - k` blanks. */
  lemma BarCounts(k: nat)
    requires k <= BarWidth
    ensures Count(Bar(k), '=') == k && Count(Bar(k), ' ') == BarWidth - k
  {
    CountAppend(Repeat('=', k), Repeat(' ', BarWidth - k), '=');
    CountAppend(Repeat('=', k), Repeat(' ', BarWidth - k), ' ');
    CountRepeat('=', '=', k);
    CountRepeat(' ', '=', BarWidth - k);
    CountRepeat('=', ' ', k);
    CountRepeat(' ', ' ', BarWidth - k);
  }

  /** The bar is full exactly when every byte has been read. */
  lemma FilledFullIffComplete(read: nat, total: nat)
    requires total > 0
    ensures Filled(read, total) == BarWidth <==> read >= total
  {
  }

  /** While no more than the total has been read, the filled cells are the percentage
      `read * 100 / total` divided by five and rounded down, computed exactly rather
      than in floating point. */
  lemma FilledIsPercentOverFive(read: nat, total: nat)
    requires total > 0 && read <= total
    ensures var k := Filled(read, total);
            5 * k * total <= 100 * read < 5 * (k + 1) * total
  {
  }

  /** Reading more never empties cells. */
  lemma FilledMonotone(r1: nat, r2: nat, total: nat)
    requires total > 0 && r1 <= r2
    ensures Filled(r1, total) <= Filled(r2, total)
  {
    var q1, q2 := r1 * BarWidth / total, r2 * BarWidth / total;
    assert r1 * BarWidth <= r2 * BarWidth;
    assert q1 * total <= r1 * BarWidth < (q2 + 1) * total;
    assert q1 < q2 + 1;
  }

  class ProgressReader {
    /** Answers the wrapped reader will still give, in order. */
    var source: seq<Chunk>
    /** Length of the whole body. */
    const total: nat
    /** Bytes passed through so far. */
    var read: nat
    /** Clock reading of the last ordinary redraw; None is Go's zero time. */
    var lastTick: Option<int>
    /** Lines drawn on the diagnostic stream so far. */
    var frames: seq<Frame>

    /** The body length is positive (a multipart body is never empty) and every byte is
        either read already or still pending in the source. */
    ghost predicate Valid()
      reads this
    {
      total > 0 && read + Pending(source) == total
    }

    /** Wraps a source whose answers deliver exactly `total` bytes, as a reader over an
        in-memory body of that length does. */
    constructor (body: seq<Chunk>, total: nat)
      requires total > 0 && Pending(body) == total
      ensures Valid()
      ensures source == body && this.total == total
      ensures read == 0 && lastTick == None && frames == []
    {
      source := body;
      this.total := total;
      read := 0;
      lastTick := None;
      frames := [];
    }

    /** The answer the wrapped reader gives next; an exhausted reader keeps answering
        end-of-file with no bytes. */
    function Next(): (answer: Chunk)
      reads this
    {
      if source == [] then Chunk(0, EndOfFile) else source[0]
    }

    /** Reads from the wrapped source, returning its answer unchanged; counts the bytes,
        redraws the bar when due, and draws the "sent" line on end-of-file. */
    method Read(now: int) returns (n: nat, err: ReadError)
      requires Valid()
      modifies this
      ensures Valid()
      ensures Chunk(n, err) == old(Next())
      ensures source == if old(source) == [] then [] else old(source)[1..]
      ensures read == old(read) + n
      ensures read <= total && (source == [] ==> read == total)
      ensures var drawn := n > 0 && RenderDue(old(lastTick), now, read, total);
              && lastTick == (if drawn then Some(now) else old(lastTick))
              && frames == old(frames)
                           + (if drawn then [Partial(Bar(Filled(read, total)), read)] else [])
                           + (if err == EndOfFile then [Sent(Bar(BarWidth))] else [])
    {
      var answer := if source == [] then Chunk(0, EndOfFile) else source[0];
      source := if source == [] then [] else source[1..];
      n, err := answer.n, answer.err;
      if n > 0 {
        read := read + n;
        if RenderDue(lastTick, now, read, total) {
          var bar := Render();
          frames := frames + [Partial(bar, read)];
          lastTick := Some(now);
        }
      }
      if err == EndOfFile {
        var bar := RenderDone();
        frames := frames + [Sent(bar)];
      }
    }

    /** Fills the bar cell by cell for the current byte count. */
    method Render() returns (bar: string)
      requires Valid()
      ensures bar == Bar(Filled(read, total))
      ensures Count(bar, '=') == Filled(read, total)
    {
      var filled := Filled(read, total);
      var cells := new char[BarWidth];
      for i := 0 to BarWidth
        invariant forall j :: 0 <= j < i ==> cells[j] == if j < filled then '=' else ' '
      {
        if i < filled {
          cells[i] := '=';
        } else {
          cells[i] := ' ';
        }
      }
      bar := cells[..];
      forall i | 0 <= i < BarWidth ensures bar[i] == Bar(filled)[i] {
        BarAt(filled, i);
      }
      BarCounts(filled);
    }

    /** Fills every cell of the bar, for the line drawn once the body is sent. */
    method RenderDone() returns (bar: string)
      ensures bar == Bar(BarWidth) && Count(bar, '=') == BarWidth
    {
      var cells := new char[BarWidth];
      for i := 0 to BarWidth
        invariant forall j :: 0 <= j < i ==> cells[j] == '='
      {
        cells[i] := '=';
      }
      bar := cells[..];
      forall i | 0 <= i < BarWidth ensures bar[i] == Bar(BarWidth)[i] {
        BarAt(BarWidth, i);
      }
      BarCounts(BarWidth);
    }
  }
}
