/**
 * `read_file` (src/main.rs:248-275): refill one reusable buffer `interim` of
 * `BYTE_LENGTH` bytes from the file, print `from_bytes(interim)` after every
 * read that delivered at least one byte, and stop at the first read that
 * delivers none.
 *
 * The file is the byte sequence it holds. How many bytes each call of `read`
 * delivers is up to the operating system and the buffered reader; it is the
 * parameter `sizes`: call `k` delivers at most `sizes[k]` bytes (once `sizes`
 * is used up, as many as asked for), never more than the buffer holds and
 * never more than the file has left. The printed values are returned in order.
 *
 * The loop is specified in two layers: `Loads` is what `interim` holds after
 * each read, which is about bytes only, and `Printed` decodes each of those
 * buffers.
 */
module Reader {
  import opened Bytes
  import opened Codec

  function Min(a: nat, b: nat): nat {
    if a <= b then a else b
  }

  /** The most bytes call `k` of `read` is willing to deliver. */
  function Offered(w: nat, sizes: seq<nat>, k: nat): nat {
    if k < |sizes| then sizes[k] else w
  }

  /** Every call of `read` delivers all it is asked for, as far as the file reaches. */
  predicate FullReads(w: nat, sizes: seq<nat>) {
    forall k :: 0 <= k < |sizes| ==> sizes[k] >= w
  }

  /**
   * The number of bytes call `k` of `read` puts into a buffer of `w` bytes
   * when the first `pos` bytes of the file are consumed.
   */
  function ReadCount(w: nat, file: seq<byte>, sizes: seq<nat>, pos: nat, k: nat): (n: nat)
    requires pos <= |file|
    ensures n <= w && pos + n <= |file|
    ensures n == 0 <==> pos == |file| || Offered(w, sizes, k) == 0 || w == 0
    ensures Offered(w, sizes, k) >= w ==> n == Min(w, |file| - pos)
  {
    Min(Min(Offered(w, sizes, k), w), |file| - pos)
  }

  /**
   * The buffer after a read of `n` bytes: its first `n` bytes are the next
   * `n` bytes of the file, and the rest still hold what they held before.
   */
  function Refill(buf: seq<byte>, file: seq<byte>, pos: nat, n: nat): (r: seq<byte>)
    requires n <= |buf| && pos + n <= |file|
    ensures |r| == |buf|
  {
    file[pos..pos + n] + buf[n..]
  }

  /** The buffer as `vec![0u8; BYTE_LENGTH]` creates it. */
  function Zeros(w: nat): (r: seq<byte>)
    ensures |r| == w && forall j :: 0 <= j < w ==> r[j] == 0
  {
    seq(w, _ => 0)
  }

  /** Buffers that all hold `w` bytes. */
  predicate AllWidth(w: nat, bs: seq<seq<byte>>) {
    forall i :: 0 <= i < |bs| ==> |bs[i]| == w
  }

  /** The whole chunks of `w` bytes a byte sequence splits into, in order. */
  function Chunks(w: nat, s: seq<byte>): seq<seq<byte>>
    requires w > 0
    decreases |s|
  {
    if |s| < w then [] else [s[..w]] + Chunks(w, s[w..])
  }

  /** `from_bytes` applied to every buffer in turn. */
  function DecodeEach(t: Tag, bs: seq<seq<byte>>): (r: seq<int>)
    requires AllWidth(Width(t), bs)
    ensures |r| == |bs|
  {
    if bs == [] then [] else [Decode(t, bs[0])] + DecodeEach(t, bs[1..])
  }

  /** Decoding a buffer put in front of others puts its value in front. */
  lemma DecodeEachCons(t: Tag, b: seq<byte>, rest: seq<seq<byte>>)
    requires |b| == Width(t) && AllWidth(Width(t), rest)
    ensures AllWidth(Width(t), [b] + rest)
    ensures DecodeEach(t, [b] + rest) == [Decode(t, b)] + DecodeEach(t, rest)
  {
    assert ([b] + rest)[1..] == rest;
  }

  /** Decoding the first `n` buffers gives the first `n` values. */
  lemma {:induction false} DecodeEachPrefix(t: Tag, bs: seq<seq<byte>>, n: nat)
    requires AllWidth(Width(t), bs) && n <= |bs|
    ensures AllWidth(Width(t), bs[..n])
    ensures DecodeEach(t, bs)[..n] == DecodeEach(t, bs[..n])
  {
    if n > 0 {
      var b, rest := bs[0], bs[1..];
      assert bs == [b] + rest;
      DecodeEachPrefix(t, rest, n - 1);
      TakeCons(b, rest, n);
      DecodeEachCons(t, b, rest);
      DecodeEachCons(t, b, rest[..n - 1]);
      TakeCons(Decode(t, b), DecodeEach(t, rest), n);
    }
  }

  /** The first `n` elements of a sequence with `x` in front. */
  lemma TakeCons<T>(x: T, s: seq<T>, n: nat)
    requires 0 < n <= |s| + 1
    ensures ([x] + s)[..n] == [x] + s[..n - 1]
  {
  }

  /** The chunks from `pos` on: the one at `pos`, then the rest. */
  lemma ChunksAt(w: nat, file: seq<byte>, pos: nat)
    requires w > 0 && pos + w <= |file|
    ensures Chunks(w, file[pos..]) == [file[pos..pos + w]] + Chunks(w, file[pos + w..])
  {
    assert file[pos..][..w] == file[pos..pos + w];
    assert file[pos..][w..] == file[pos + w..];
  }

  /**
   * The chunks of a byte sequence, decoded one by one, are its values as
   * `DecodeAll` reads them.
   */
  lemma {:induction false} DecodeAllChunks(t: Tag, s: seq<byte>)
    ensures AllWidth(Width(t), Chunks(Width(t), s))
    ensures DecodeAll(t, s) == DecodeEach(t, Chunks(Width(t), s))
    decreases |s|
  {
    var w := Width(t);
    if |s| >= w {
      var c, rest := s[..w], Chunks(w, s[w..]);
      assert Chunks(w, s) == [c] + rest;
      DecodeAllChunks(t, s[w..]);
      DecodeEachCons(t, c, rest);
      DecodeFront(t, c, s);
      DecodeAllFirst(t, s);
    }
  }

  /**
   * What `interim` holds after each read that delivers bytes, from the state
   * where `pos` bytes are consumed, `k` reads are done and the buffer holds
   * `buf`.
   */
  function Loads(w: nat, file: seq<byte>, sizes: seq<nat>, pos: nat, k: nat, buf: seq<byte>): seq<seq<byte>>
    requires pos <= |file| && |buf| == w
    decreases |file| - pos
  {
    var n := ReadCount(w, file, sizes, pos, k);
    if n == 0 then []
    else
      var b := Refill(buf, file, pos, n);
      [b] + Loads(w, file, sizes, pos + n, k + 1, b)
  }

  /** Every buffer the loop decodes has the length it was created with. */
  lemma {:induction false} LoadsWidth(w: nat, file: seq<byte>, sizes: seq<nat>, pos: nat, k: nat, buf: seq<byte>)
    requires pos <= |file| && |buf| == w
    ensures AllWidth(w, Loads(w, file, sizes, pos, k, buf))
    decreases |file| - pos
  {
    var n := ReadCount(w, file, sizes, pos, k);
    if n > 0 {
      var b := Refill(buf, file, pos, n);
      LoadsWidth(w, file, sizes, pos + n, k + 1, b);
      assert Loads(w, file, sizes, pos, k, buf) == [b] + Loads(w, file, sizes, pos + n, k + 1, b);
    }
  }

  /** What the loop prints: the value of each buffer it loads, in order. */
  function Printed(t: Tag, file: seq<byte>, sizes: seq<nat>, pos: nat, k: nat, buf: seq<byte>): seq<int>
    requires pos <= |file| && |buf| == Width(t)
  {
    LoadsWidth(Width(t), file, sizes, pos, k, buf);
    DecodeEach(t, Loads(Width(t), file, sizes, pos, k, buf))
  }

  /**
   * One turn of the loop: a read that delivers bytes prints the decoded
   * buffer, and what is printed so far plus what is still to be printed stays
   * the same.
   */
  lemma PrintedStep(t: Tag, file: seq<byte>, sizes: seq<nat>, pos: nat, k: nat, buf: seq<byte>,
                    n: nat, b: seq<byte>, done: seq<int>, total: seq<int>)
    requires pos <= |file| && |buf| == Width(t)
    requires n == ReadCount(Width(t), file, sizes, pos, k) && n > 0
    requires b == Refill(buf, file, pos, n)
    requires done + Printed(t, file, sizes, pos, k, buf) == total
    ensures (done + [Decode(t, b)]) + Printed(t, file, sizes, pos + n, k + 1, b) == total
  {
    var w := Width(t);
    var rest := Loads(w, file, sizes, pos + n, k + 1, b);
    assert Loads(w, file, sizes, pos, k, buf) == [b] + rest;
    LoadsWidth(w, file, sizes, pos + n, k + 1, b);
    DecodeEachCons(t, b, rest);
    MoveFirst(done, Decode(t, b), DecodeEach(t, rest), total);
  }

  /** Moving the next value from what is still to come to what is done. */
  lemma MoveFirst(done: seq<int>, d: int, rest: seq<int>, total: seq<int>)
    requires done + ([d] + rest) == total
    ensures (done + [d]) + rest == total
  {
    assert done + ([d] + rest) == (done + [d]) + rest;
  }

  /**
   * `read(&mut interim[..])` delivering `n` bytes: they are copied over the
   * front of the buffer, and nothing else in it changes.
   */
  method ReadInto(buf: array<byte>, file: seq<byte>, pos: nat, n: nat)
    requires n <= buf.Length && pos + n <= |file|
    modifies buf
    ensures buf[..] == Refill(old(buf[..]), file, pos, n)
  {
    forall j | 0 <= j < n {
      buf[j] := file[pos + j];
    }
    assert buf[..] == Refill(old(buf[..]), file, pos, n);
  }

  /**
   * The read loop, with `interim` updated in place by every read. A short
   * read overwrites only the bytes it delivers: the rest of `interim` keeps
   * the bytes of the previous chunk, and they are decoded with it.
   */
  method ReadFile(t: Tag, file: seq<byte>, sizes: seq<nat>) returns (printed: seq<int>)
    ensures printed == Printed(t, file, sizes, 0, 0, Zeros(Width(t)))
  {
    var w := Width(t);
    var interim := new byte[w](_ => 0);
    assert interim[..] == Zeros(w);
    var pos, k := 0, 0;
    ghost var total := Printed(t, file, sizes, 0, 0, Zeros(w));
    printed := [];
    while true
      invariant pos <= |file| && interim.Length == w
      invariant printed + Printed(t, file, sizes, pos, k, interim[..]) == total
      decreases |file| - pos
    {
      var n := ReadCount(w, file, sizes, pos, k);
      if n == 0 {
        break;
      }
      ghost var b := Refill(interim[..], file, pos, n);
      PrintedStep(t, file, sizes, pos, k, interim[..], n, b, printed, total);
      ReadInto(interim, file, pos, n);
      var value := Decode(t, interim[..]);
      printed := printed + [value];
      pos, k := pos + n, k + 1;
    }
  }

  /** With full reads, a read where a whole chunk is left loads that chunk. */
  lemma LoadsFullChunk(w: nat, file: seq<byte>, sizes: seq<nat>, pos: nat, k: nat, buf: seq<byte>)
    requires pos <= |file| && |buf| == w && FullReads(w, sizes)
    requires 0 < w <= |file| - pos
    ensures Loads(w, file, sizes, pos, k, buf)
         == [file[pos..pos + w]] + Loads(w, file, sizes, pos + w, k + 1, file[pos..pos + w])
  {
    assert ReadCount(w, file, sizes, pos, k) == w;
    assert Refill(buf, file, pos, w) == file[pos..pos + w];
  }

  /** Putting the same element in front of a sequence and of its prefix keeps it a prefix. */
  lemma PrefixCons<T>(d: T, s: seq<T>, prefix: seq<T>)
    requires |prefix| <= |s| && s[..|prefix|] == prefix
    ensures ([d] + s)[..|prefix| + 1] == [d] + prefix
  {
    assert ([d] + s)[1..][..|prefix|] == s[..|prefix|];
  }

  /**
   * With full reads, the loop loads every whole chunk of the file, in order,
   * before anything else.
   */
  lemma {:induction false} LoadsFullReadsPrefix(w: nat, file: seq<byte>, sizes: seq<nat>, pos: nat, k: nat, buf: seq<byte>)
    requires pos <= |file| && |buf| == w && w > 0 && FullReads(w, sizes)
    ensures |Chunks(w, file[pos..])| <= |Loads(w, file, sizes, pos, k, buf)|
    ensures Loads(w, file, sizes, pos, k, buf)[..|Chunks(w, file[pos..])|] == Chunks(w, file[pos..])
    decreases |file| - pos
  {
    if |file| - pos >= w {
      var c := file[pos..pos + w];
      LoadsFullChunk(w, file, sizes, pos, k, buf);
      ChunksAt(w, file, pos);
      LoadsFullReadsPrefix(w, file, sizes, pos + w, k + 1, c);
      PrefixCons(c, Loads(w, file, sizes, pos + w, k + 1, c), Chunks(w, file[pos + w..]));
    }
  }

  /** 1 when `n` bytes end in a partial chunk of `w` bytes, 0 when they are whole chunks. */
  function Trailing(w: nat, n: nat): (r: nat)
    requires w > 0
    ensures r <= 1
    decreases n
  {
    if n == 0 then 0 else if n < w then 1 else Trailing(w, n - w)
  }

  /** `Trailing` is whether the length leaves a remainder. */
  lemma {:induction false} TrailingRemainder(w: nat, n: nat)
    requires w > 0
    ensures Trailing(w, n) == if n % w == 0 then 0 else 1
    decreases n
  {
    if n == 0 {
    } else if n < w {
      DivUnique(n, w, 0, n);
    } else {
      DropChunkMod(n, w);
      TrailingRemainder(w, n - w);
    }
  }

  /**
   * With full reads, the loop loads one buffer more than the file has whole
   * chunks exactly when the file ends in a partial chunk.
   */
  lemma {:induction false} LoadsFullReadsCount(w: nat, file: seq<byte>, sizes: seq<nat>, pos: nat, k: nat, buf: seq<byte>)
    requires pos <= |file| && |buf| == w && w > 0 && FullReads(w, sizes)
    ensures |Loads(w, file, sizes, pos, k, buf)| == |Chunks(w, file[pos..])| + Trailing(w, |file| - pos)
    decreases |file| - pos
  {
    var rest := |file| - pos;
    if rest == 0 {
      assert ReadCount(w, file, sizes, pos, k) == 0;
    } else if rest < w {
      var b := Refill(buf, file, pos, rest);
      assert ReadCount(w, file, sizes, pos, k) == rest;
      assert ReadCount(w, file, sizes, |file|, k + 1) == 0;
      assert Loads(w, file, sizes, pos, k, buf) == [b];
    } else {
      var c := file[pos..pos + w];
      LoadsFullChunk(w, file, sizes, pos, k, buf);
      ChunksAt(w, file, pos);
      LoadsFullReadsCount(w, file, sizes, pos + w, k + 1, c);
      assert |file| - (pos + w) == rest - w;
    }
  }

  /**
   * When every read fills the buffer and the file is a whole number of
   * chunks, the loop prints the value of each chunk, in file order.
   */
  lemma PrintedWholeChunks(t: Tag, file: seq<byte>, sizes: seq<nat>, pos: nat, k: nat, buf: seq<byte>)
    requires pos <= |file| && |buf| == Width(t) && FullReads(Width(t), sizes)
    requires (|file| - pos) % Width(t) == 0
    ensures Printed(t, file, sizes, pos, k, buf) == DecodeAll(t, file[pos..])
  {
    var w := Width(t);
    var loads, chunks := Loads(w, file, sizes, pos, k, buf), Chunks(w, file[pos..]);
    LoadsFullReadsPrefix(w, file, sizes, pos, k, buf);
    LoadsFullReadsCount(w, file, sizes, pos, k, buf);
    TrailingRemainder(w, |file| - pos);
    assert loads == loads[..|chunks|] == chunks;
    DecodeAllChunks(t, file[pos..]);
  }

  /**
   * When every read fills the buffer as far as the file reaches, the loop
   * prints the value of each whole chunk in file order, and maybe more.
   */
  lemma PrintedFullReadsPrefix(t: Tag, file: seq<byte>, sizes: seq<nat>, pos: nat, k: nat, buf: seq<byte>)
    requires pos <= |file| && |buf| == Width(t) && FullReads(Width(t), sizes)
    ensures |DecodeAll(t, file[pos..])| <= |Printed(t, file, sizes, pos, k, buf)|
    ensures Printed(t, file, sizes, pos, k, buf)[..|DecodeAll(t, file[pos..])|] == DecodeAll(t, file[pos..])
  {
    var w := Width(t);
    var loads, chunks := Loads(w, file, sizes, pos, k, buf), Chunks(w, file[pos..]);
    LoadsFullReadsPrefix(w, file, sizes, pos, k, buf);
    LoadsWidth(w, file, sizes, pos, k, buf);
    DecodeEachPrefix(t, loads, |chunks|);
    DecodeAllChunks(t, file[pos..]);
  }

  /**
   * When every read fills the buffer as far as the file reaches, the loop
   * prints one value more than the file has whole chunks exactly when the file
   * ends in a partial chunk.
   */
  lemma PrintedFullReadsCount(t: Tag, file: seq<byte>, sizes: seq<nat>, pos: nat, k: nat, buf: seq<byte>)
    requires pos <= |file| && |buf| == Width(t) && FullReads(Width(t), sizes)
    ensures |Printed(t, file, sizes, pos, k, buf)|
         == |DecodeAll(t, file[pos..])| + (if (|file| - pos) % Width(t) == 0 then 0 else 1)
  {
    var w := Width(t);
    var loads, chunks := Loads(w, file, sizes, pos, k, buf), Chunks(w, file[pos..]);
    LoadsFullReadsCount(w, file, sizes, pos, k, buf);
    TrailingRemainder(w, |file| - pos);
    LoadsWidth(w, file, sizes, pos, k, buf);
    DecodeAllChunks(t, file[pos..]);
    assert |Printed(t, file, sizes, pos, k, buf)| == |loads|;
    assert |DecodeAll(t, file[pos..])| == |chunks|;
  }

  /**
   * A file of one 16-bit value and one stray byte: the stray byte is
   * decoded together with the high byte of the previous chunk, which is still
   * in `interim`, and printed as a value the file does not hold.
   */
  lemma StaleBytesExample()
    ensures DecodeAll(U16, [0x01, 0x05, 0x02]) == [0x0501]
    ensures Loads(2, [0x01, 0x05, 0x02], [], 0, 0, Zeros(2)) == [[0x01, 0x05], [0x02, 0x05]]
    ensures Printed(U16, [0x01, 0x05, 0x02], [], 0, 0, Zeros(2)) == [0x0501, 0x0502]
  {
    var file: seq<byte> := [0x01, 0x05, 0x02];
    var first, second: seq<byte> := [0x01, 0x05], [0x02, 0x05];
    assert Zeros(2) == [0, 0];
    assert Refill([0, 0], file, 0, 2) == first;
    assert Refill(first, file, 2, 1) == second;
    assert Loads(2, file, [], 3, 2, second) == [];
    assert Loads(2, file, [], 2, 1, first) == [second];
    assert file[2..] == [0x02];
    assert LeValue(first) == 0x0501;
    assert LeValue(second) == 0x0502;
    assert Half(U16) == 0x8000;
    DecodeEachCons(U16, second, []);
    DecodeEachCons(U16, first, [second]);
  }

  /**
   * The reader as evidently intended: a read that delivers fewer than
   * `BYTE_LENGTH` bytes ends the stream, and nothing is loaded from it.
   */
  function CheckedLoads(w: nat, file: seq<byte>, sizes: seq<nat>, pos: nat, k: nat): seq<seq<byte>>
    requires pos <= |file| && w > 0
    decreases |file| - pos
  {
    var n := ReadCount(w, file, sizes, pos, k);
    if n < w then [] else [file[pos..pos + n]] + CheckedLoads(w, file, sizes, pos + n, k + 1)
  }

  /**
   * Whatever the reads deliver, the corrected loop loads only whole chunks
   * of the file: its first chunks, in file order.
   */
  lemma {:induction false} CheckedLoadsPrefix(w: nat, file: seq<byte>, sizes: seq<nat>, pos: nat, k: nat)
    requires pos <= |file| && w > 0
    ensures |CheckedLoads(w, file, sizes, pos, k)| <= |Chunks(w, file[pos..])|
    ensures CheckedLoads(w, file, sizes, pos, k) == Chunks(w, file[pos..])[..|CheckedLoads(w, file, sizes, pos, k)|]
    decreases |file| - pos
  {
    if ReadCount(w, file, sizes, pos, k) >= w {
      var c := file[pos..pos + w];
      var rest := CheckedLoads(w, file, sizes, pos + w, k + 1);
      assert CheckedLoads(w, file, sizes, pos, k) == [c] + rest;
      ChunksAt(w, file, pos);
      CheckedLoadsPrefix(w, file, sizes, pos + w, k + 1);
      PrefixCons(c, Chunks(w, file[pos + w..]), rest);
    }
  }

  /** With full reads, the corrected loop loads every whole chunk and nothing else. */
  lemma {:induction false} CheckedLoadsFull(w: nat, file: seq<byte>, sizes: seq<nat>, pos: nat, k: nat)
    requires pos <= |file| && w > 0 && FullReads(w, sizes)
    ensures CheckedLoads(w, file, sizes, pos, k) == Chunks(w, file[pos..])
    decreases |file| - pos
  {
    if |file| - pos >= w {
      assert ReadCount(w, file, sizes, pos, k) == w;
      ChunksAt(w, file, pos);
      CheckedLoadsFull(w, file, sizes, pos + w, k + 1);
    }
  }

  /** Every chunk the corrected loop loads fills the buffer. */
  lemma {:induction false} CheckedLoadsWidth(w: nat, file: seq<byte>, sizes: seq<nat>, pos: nat, k: nat)
    requires pos <= |file| && w > 0
    ensures AllWidth(w, CheckedLoads(w, file, sizes, pos, k))
    decreases |file| - pos
  {
    if ReadCount(w, file, sizes, pos, k) >= w {
      var c := file[pos..pos + w];
      CheckedLoadsWidth(w, file, sizes, pos + w, k + 1);
      assert CheckedLoads(w, file, sizes, pos, k) == [c] + CheckedLoads(w, file, sizes, pos + w, k + 1);
    }
  }

  /** What the corrected loop prints: the value of each chunk it loads. */
  function PrintedChecked(t: Tag, file: seq<byte>, sizes: seq<nat>, pos: nat, k: nat): seq<int>
    requires pos <= |file|
  {
    CheckedLoadsWidth(Width(t), file, sizes, pos, k);
    DecodeEach(t, CheckedLoads(Width(t), file, sizes, pos, k))
  }

  /** A read that fills the buffer takes exactly the next chunk, whose value is printed first. */
  lemma CheckedStep(t: Tag, file: seq<byte>, sizes: seq<nat>, pos: nat, k: nat)
    requires pos <= |file| && ReadCount(Width(t), file, sizes, pos, k) >= Width(t)
    ensures ReadCount(Width(t), file, sizes, pos, k) == Width(t) && pos + Width(t) <= |file|
    ensures PrintedChecked(t, file, sizes, pos, k)
         == [Decode(t, file[pos..pos + Width(t)])] + PrintedChecked(t, file, sizes, pos + Width(t), k + 1)
  {
    var w := Width(t);
    var c := file[pos..pos + w];
    var rest := CheckedLoads(w, file, sizes, pos + w, k + 1);
    assert CheckedLoads(w, file, sizes, pos, k) == [c] + rest;
    CheckedLoadsWidth(w, file, sizes, pos + w, k + 1);
    DecodeEachCons(t, c, rest);
  }

  /**
   * A read that fills `interim`: it then holds the next chunk of the file,
   * and decoding it gives that chunk's value.
   */
  method ReadChunk(t: Tag, buf: array<byte>, file: seq<byte>, pos: nat) returns (value: int)
    requires buf.Length == Width(t) && pos + Width(t) <= |file|
    modifies buf
    ensures buf[..] == file[pos..pos + Width(t)]
    ensures value == Decode(t, file[pos..pos + Width(t)])
  {
    ReadInto(buf, file, pos, Width(t));
    assert buf[..] == file[pos..pos + Width(t)];
    value := Decode(t, buf[..]);
  }

  /** The corrected read loop, still refilling `interim` in place. */
  method ReadFileChecked(t: Tag, file: seq<byte>, sizes: seq<nat>) returns (printed: seq<int>)
    ensures printed == PrintedChecked(t, file, sizes, 0, 0)
  {
    var w := Width(t);
    var interim := new byte[w](_ => 0);
    var pos, k := 0, 0;
    ghost var total := PrintedChecked(t, file, sizes, 0, 0);
    printed := [];
    while true
      invariant pos <= |file| && interim.Length == w
      invariant printed + PrintedChecked(t, file, sizes, pos, k) == total
      decreases |file| - pos
    {
      var n := ReadCount(w, file, sizes, pos, k);
      if n < w {
        break;
      }
      CheckedStep(t, file, sizes, pos, k);
      var value := ReadChunk(t, interim, file, pos);
      MoveFirst(printed, value, PrintedChecked(t, file, sizes, pos + w, k + 1), total);
      printed := printed + [value];
      pos, k := pos + w, k + 1;
    }
  }

  /**
   * Whatever the reads deliver, the corrected loop prints only values the
   * file holds: the values of its first whole chunks, in file order.
   */
  lemma CheckedPrintsWholeChunks(t: Tag, file: seq<byte>, sizes: seq<nat>, pos: nat, k: nat)
    requires pos <= |file|
    ensures var printed := PrintedChecked(t, file, sizes, pos, k);
            |printed| <= |DecodeAll(t, file[pos..])|
            && printed == DecodeAll(t, file[pos..])[..|printed|]
  {
    var w := Width(t);
    var loads, chunks := CheckedLoads(w, file, sizes, pos, k), Chunks(w, file[pos..]);
    CheckedLoadsPrefix(w, file, sizes, pos, k);
    DecodeAllChunks(t, file[pos..]);
    DecodeEachPrefix(t, chunks, |loads|);
    CheckedLoadsWidth(w, file, sizes, pos, k);
  }

  /**
   * When every read fills the buffer as far as the file reaches, the
   * corrected loop prints the value of every whole chunk and drops a
   * trailing partial chunk.
   */
  lemma CheckedFullReads(t: Tag, file: seq<byte>, sizes: seq<nat>, pos: nat, k: nat)
    requires pos <= |file| && FullReads(Width(t), sizes)
    ensures PrintedChecked(t, file, sizes, pos, k) == DecodeAll(t, file[pos..])
  {
    CheckedLoadsFull(Width(t), file, sizes, pos, k);
    CheckedLoadsWidth(Width(t), file, sizes, pos, k);
    DecodeAllChunks(t, file[pos..]);
  }
}
