/** Types shared by the coordinator, the storage nodes and the client. */
module Common {

  /** A byte of a chunk payload (Java `byte`, taken as its unsigned value). */
  newtype byte = x: int | 0 <= x < 256

  type Bytes = seq<byte>

  /** A storage node is identified by its base URL, e.g. "http://host:8001". */
  type Url = string

  /** A blob is identified by the original file name of the uploaded PDF. */
  type PdfId = string

  /** Default configuration values of the master and the client. */
  const DEFAULT_CHUNK_SIZE: nat := 32768
  const DEFAULT_REPLICATION_FACTOR: nat := 3

  datatype Option<T> = None | Some(value: T)

  /** The distinct reasons for which the Java code throws a RuntimeException. */
  datatype Error =
    | NoChunkservers          // planUpload with an empty healthy set
    | PdfNotFound             // getMetadata of an unknown id, or a non-2xx metadata reply
    | PlanRejected            // the client could not obtain an upload plan
    | BadChunkIndex           // Arrays.copyOfRange outside the payload
    | ChunkUnavailable(index: int)  // download: no replica listed for an index
    | ChunkUnreadable(index: int)   // download: every listed replica failed

  datatype Result<T> = Ok(value: T) | Err(error: Error)

  /** One replica of one chunk in the metadata (ChunkLocation.java). */
  datatype ChunkLocation = ChunkLocation(chunkIndex: int, chunkserverUrl: Url, replicaIndex: int)

  /** The metadata of one blob (PdfMetadata.java); its creation timestamp is not modelled. */
  datatype PdfMetadata = PdfMetadata(pdfId: PdfId, size: int, chunks: seq<ChunkLocation>)

  /** The key under which a storage node holds a chunk. */
  datatype ChunkKey = ChunkKey(pdfId: PdfId, chunkIndex: int)

  function Min(a: int, b: int): (r: int)
    ensures r <= a && r <= b && (r == a || r == b)
  {
    if a <= b then a else b
  }

  predicate Distinct<T(==)>(s: seq<T>) {
    forall i, j :: 0 <= i < j < |s| ==> s[i] != s[j]
  }

  /** The first `n` elements (Java `stream().limit(n)`); a negative `n` keeps nothing. */
  function Take<T>(s: seq<T>, n: int): (r: seq<T>)
    ensures |r| == if n <= 0 then 0 else Min(n, |s|)
    ensures forall i :: 0 <= i < |r| ==> r[i] == s[i]
  {
    if n <= 0 then [] else if n >= |s| then s else s[..n]
  }

  /** The sequence without the occurrences of `x`. */
  function Without<T(==,!new)>(s: seq<T>, x: T): (r: seq<T>)
    ensures forall y :: y in r <==> y in s && y != x
    ensures Distinct(s) ==> Distinct(r)
  {
    if s == [] then []
    else if s[0] == x then Without(s[1..], x)
    else
      var rest := Without(s[1..], x);
      assert Distinct(s) ==> s[0] !in rest;
      [s[0]] + rest
  }

  /** A sequence without duplicates has as many elements as its set. */
  lemma {:induction false} DistinctCardinality<T>(s: seq<T>)
    requires Distinct(s)
    ensures |set x | x in s| == |s|
  {
    if s != [] {
      DistinctCardinality(s[1..]);
      assert (set x | x in s) == {s[0]} + (set x | x in s[1..]);
      assert s[0] !in (set x | x in s[1..]);
    }
  }

  /** A positive multiple of a positive number is at least that number. */
  lemma {:induction false} MulAtLeast(x: int, n: int)
    requires x >= 1 && n > 0
    ensures x * n >= n
  {
    assert x * n == (x - 1) * n + n;
    if x > 1 { MulAtLeast(x - 1, n); }
  }

  /** Euclidean remainders are unique: `a == q * n + r` with `0 <= r < n` fixes `a % n`. */
  lemma ModUnique(a: int, n: int, q: int, r: int)
    requires n > 0 && 0 <= r < n && a == q * n + r
    ensures a % n == r
  {
    var q0, r0 := a / n, a % n;
    assert a == q0 * n + r0;
    assert (q - q0) * n == r0 - r;
    if q - q0 >= 1 { MulAtLeast(q - q0, n); }
    else if q0 - q >= 1 { MulAtLeast(q0 - q, n); }
  }

  /** Adding a multiple of `n` does not change the remainder modulo `n`. */
  lemma ModAddMultiple(a: int, n: int, m: int)
    requires n > 0
    ensures (a + m * n) % n == a % n
  {
    assert a == (a / n) * n + a % n;
    assert (a / n + m) * n == (a / n) * n + m * n;
    ModUnique(a + m * n, n, a / n + m, a % n);
  }

  /** Two numbers less than `n` apart, and not equal, have different remainders modulo `n`. */
  lemma ModInjective(x: int, y: int, n: int)
    requires n > 0 && 0 < y - x < n
    ensures x % n != y % n
  {
    var q, r := x / n, x % n;
    assert x == q * n + r;
    if r + (y - x) < n {
      ModUnique(y, n, q, r + (y - x));
    } else {
      assert (q + 1) * n == q * n + n;
      ModUnique(y, n, q + 1, r + (y - x) - n);
    }
  }

  /** Shifting by two amounts that agree modulo `n` gives the same remainder. */
  lemma ModShiftCongruent(k: int, i: int, j: int, n: int)
    requires n > 0 && i % n == j % n
    ensures (k - i) % n == (k - j) % n
  {
    assert i == (i / n) * n + i % n && j == (j / n) * n + j % n;
    assert (i / n - j / n) * n == (i / n) * n - (j / n) * n;
    assert k - j == (k - i) + (i / n - j / n) * n;
    ModAddMultiple(k - i, n, i / n - j / n);
  }
}
