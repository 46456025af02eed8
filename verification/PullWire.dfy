/** What the file server and its client send each other, byte by byte, and how much of a file a run brings. */
module PullWire {
  import opened Options
  import opened Bytes
  import opened Pull
  import opened PullRun
  import opened FatFormat
  import opened FatNames
  import opened FatVolume

  // ----- decimal numbers -----

  /** Digit `i` from the front counts ten times as much as the one behind it. */
  lemma {:induction false} DecDigits(n: nat, i: nat)
    requires i < |Dec(n)|
    ensures Power10(|Dec(n)| - 1 - i) > 0 && Dec(n)[i] == 48 + n / Power10(|Dec(n)| - 1 - i) % 10
    decreases n
  {
    var front := if n < 10 then [] else Dec(n / 10);
    var k: nat := |Dec(n)| - 1 - i;
    assert Dec(n) == front + [48 + n % 10];
    if i < |front| {
      DecDigits(n / 10, i);
      assert |Dec(n / 10)| - 1 - i == k - 1;
      assert Power10(k) == 10 * Power10(k - 1);
      QuotientTwice(n, Power10(k - 1));
    }
  }

  lemma QuotientTwice(n: nat, d: nat)
    requires d > 0
    ensures n / 10 / d == n / (10 * d)
  {
    var q, r := n / 10, n % 10;
    var a, b := q / d, q % d;
    assert n == 10 * (a * d + b) + r;
    assert n == (10 * d) * a + (10 * b + r);
    assert 0 <= 10 * b + r < 10 * d;
    QuotientIs(n, 10 * d, a, 10 * b + r);
  }

  lemma QuotientIs(n: nat, d: nat, q: nat, r: nat)
    requires n == d * q + r && r < d
    ensures n / d == q
  {
    var p, s := n / d, n % d;
    assert n == d * p + s && 0 <= s < d;
    if p < q {
      Stretch(d, p, q);
    } else if q < p {
      Stretch(d, q, p);
    }
  }

  lemma {:induction false} Stretch(d: nat, p: nat, q: nat)
    requires p < q
    ensures d * p + d <= d * q
    decreases q
  {
    assert d * q == d * (q - 1) + d;
    if p < q - 1 {
      Stretch(d, p, q - 1);
    }
  }

  /** Nothing is written in front of the first digit that counts. */
  lemma {:induction false} DecLeads(n: nat)
    ensures n > 0 ==> Dec(n)[0] != 48
    ensures n == 0 ==> Dec(n) == [48]
  {
    if n >= 10 {
      DecLeads(n / 10);
      assert Dec(n) == Dec(n / 10) + [48 + n % 10];
    } else {
      assert Dec(n) == [48 + n % 10];
    }
    hide Dec;
  }

  // ----- replies -----

  /** The reply to SIZE is `OK <size>`. */
  lemma SizeAnswer(file: seq<byte>)
    ensures Answer(file, Size) == [79, 75] + ([32] + Dec(|file|))
  {
    hide Dec, Chunk, Head;
  }

  /** The reply to GET is `OK <offset> <size> <length>`, and behind a newline the bytes from the offset on, up
      to 1430 of them; at the end of the file and past it there is no newline either. */
  lemma GetAnswer(file: seq<byte>, off: nat)
    ensures var len := if off >= |file| then 0 else if |file| - off < 1430 then |file| - off else 1430;
            var fields := [79, 75] + ([32] + Dec(off)) + ([32] + Dec(|file|)) + ([32] + Dec(len));
            Answer(file, Get(off)) == if off < |file| then fields + [10] + file[off..off + len] else fields
  {
    if off < |file| {
      ChunkIs(file, off);
    }
    hide Dec, Chunk;
  }

  // ----- how much a run brings -----

  /** `k` chunks of 1430 bytes are the fewest that hold `total` bytes, and `got` is as much of the file. */
  predicate Chunks(k: nat, size: nat, total: nat, got: nat) {
    total <= 1430 * k < total + 1430 && got == if 1430 * k < size then 1430 * k else size
  }

  /** A run that reports success has fetched whole chunks for the size it was told, which was no more than the
      file's; its stage stayed within its 16384 bytes exactly when the fetched bytes would have. */
  lemma SavedIs(size: nat, total: nat, saved: nat, peak: nat)
    ensures Ends(Saved, size, total, saved, peak)
            <==> total <= size && (exists k: nat :: Chunks(k, size, total, saved))
                 && (peak <= 16384 <==> saved <= 16384)
  {
    var k := (total + 1429) / 1430;
    assert Chunks(k, size, total, Goal(size, total));
    if j: nat :| Chunks(j, size, total, saved) {
      assert j == k;
    }
  }

  /** The whole file is there exactly when those chunks hold it, the last of them perhaps in part. */
  lemma SavedWhole(size: nat, total: nat, saved: nat, peak: nat)
    requires Ends(Saved, size, total, saved, peak)
    ensures saved == size <==> exists k: nat :: Chunks(k, size, total, saved) && size <= 1430 * k
  {
    SavedIs(size, total, saved, peak);
  }
}
