/**
 * The identification decision of `api_verify` (app.py). With face embeddings
 * the probe's first face is compared with every registered embedding and the
 * first closest one wins if it is closer than 0.5. Without the face model the
 * probe's perceptual hash is compared with every registered hash in gallery
 * order and the first closest one wins if it differs in at most 10 bits.
 * Attendance is recorded only for an accepted probe.
 */
module Verify {
  import opened Wrappers
  import opened Text
  import opened KnownFaces
  import opened Attendance

  const NO_FACE_FOUND := "No face found"
  const NO_REGISTERED_STUDENTS := "No registered students"
  const UNKNOWN := "Unknown"

  /** Embedding mode accepts a distance strictly below this. */
  const EMBEDDING_TOLERANCE: real := 0.5

  /** Hash mode accepts a bit difference up to and including this. */
  const HASH_TOLERANCE := 10

  /** Starting value of the running best distance in hash mode. */
  const HASH_SENTINEL := 999

  /** `imagehash.phash` with its default size gives an 8 x 8 bit hash. */
  const HASH_BITS := 64

  type PHash = h: seq<bool> | |h| == HASH_BITS witness seq(HASH_BITS, _ => false)

  /** The JSON answer: an error message (HTTP 400) or who was recognised, whether accepted, and how far. */
  datatype Response<D> = Failure(error: string) | Decision(name: string, matched: bool, distance: D)

  /**
   * The base64 text of a JSON `image` field: what follows the first comma
   * (the header/data split of a `data:` URL, section 3 of RFC 2397), or the
   * whole field when there is no comma or nothing follows it (`data or b64`).
   */
  function ImagePayload(b64: string): (data: string)
    ensures ',' !in b64 ==> data == b64
    ensures data == b64 || (data != [] && |data| < |b64| && data == b64[|b64| - |data|..]
                            && b64[|b64| - |data| - 1] == ',' && ',' !in b64[..|b64| - |data| - 1])
  {
    var (header, found, data) := Partition(b64, ',');
    assert found ==> b64[|header|] == ',' && b64[..|header|] == header && b64[|header| + 1..] == data;
    if data != [] then data else b64
  }

  /** A `data:` URL yields exactly its payload. */
  lemma DataUrlPayload(header: string, payload: string)
    requires ',' !in header && payload != []
    ensures ImagePayload(header + "," + payload) == payload
  {
    PartitionAtFirst(header, ',', payload);
  }

  /** `ArgMin` of the distances: `k` is the first index holding the smallest one. */
  predicate IsFirstMin(ds: seq<real>, k: nat)
  {
    k < |ds| && (forall j :: 0 <= j < |ds| ==> ds[k] <= ds[j]) && (forall j :: 0 <= j < k ==> ds[k] < ds[j])
  }

  /** `np.argmin`: the first index of the smallest distance. */
  function ArgMin(ds: seq<real>): (k: nat)
    requires ds != []
    ensures IsFirstMin(ds, k)
  {
    if |ds| == 1 then 0
    else
      var k := ArgMin(ds[..|ds| - 1]);
      if ds[|ds| - 1] < ds[k] then |ds| - 1 else k
  }

  /** There is only one first index of the minimum. */
  lemma FirstMinUnique(ds: seq<real>, a: nat, b: nat)
    requires IsFirstMin(ds, a) && IsFirstMin(ds, b)
    ensures a == b
  {
    // both are minima, so they hold the same distance, which neither may beat
    assert ds[a] == ds[b];
  }

  /** `face_recognition.face_distance(encs, face)`, from the distance oracle. */
  function FaceDistances<E>(known: Gallery<E>, face: E, dist: (E, E) -> real): seq<real>
  {
    seq(|known|, i requires 0 <= i < |known| => dist(known[i].rep, face))
  }

  /**
   * The embedding branch of `api_verify`, given the faces the model found in
   * the probe and the current gallery.
   */
  function EmbeddingVerify<E>(faces: seq<E>, known: Gallery<E>, dist: (E, E) -> real): (r: Response<real>)
    ensures r.Failure? <==> faces == [] || known == []
    ensures faces == [] ==> r == Failure(NO_FACE_FOUND)
    ensures faces != [] && known == [] ==> r == Failure(NO_REGISTERED_STUDENTS)
    ensures r.Decision? ==> (r.matched <==> r.distance < EMBEDDING_TOLERANCE)
    ensures r.Decision? ==> forall j :: 0 <= j < |known| ==> r.distance <= dist(known[j].rep, faces[0])
    ensures r.Decision? && !r.matched ==> r.name == UNKNOWN
    ensures r.Decision? && r.matched ==> r.name in Keys(known)
  {
    if faces == [] then Failure(NO_FACE_FOUND)
    else
      var face := faces[0];
      if known == [] then Failure(NO_REGISTERED_STUDENTS)
      else
        var distances := FaceDistances(known, face, dist);
        assert forall j :: 0 <= j < |known| ==> distances[j] == dist(known[j].rep, face);
        var best := ArgMin(distances);
        var matched := distances[best] < EMBEDDING_TOLERANCE;
        assert Keys(known)[best] == known[best].name;
        Decision(if matched then known[best].name else UNKNOWN, matched, distances[best])
  }

  /**
   * The embedding decision in full: the first registered student at the
   * smallest distance is reported with that distance, under their name when
   * the distance is below 0.5 and as `Unknown` otherwise.
   */
  lemma EmbeddingWinner<E>(faces: seq<E>, known: Gallery<E>, dist: (E, E) -> real, k: nat)
    requires faces != []
    requires IsFirstMin(FaceDistances(known, faces[0], dist), k)
    ensures var d := dist(known[k].rep, faces[0]);
            EmbeddingVerify(faces, known, dist) == Decision(if d < EMBEDDING_TOLERANCE then known[k].name else UNKNOWN, d < EMBEDDING_TOLERANCE, d)
  {
    var ds := FaceDistances(known, faces[0], dist);
    FirstMinUnique(ds, ArgMin(ds), k);
  }

  /** `ph - h` for image hashes: the number of positions at which the bits differ. */
  function Hamming(a: seq<bool>, b: seq<bool>): (d: nat)
    requires |a| == |b|
    ensures d <= |a|
    ensures d == 0 <==> a == b
  {
    if a == [] then 0
    else
      var d := (if a[0] != b[0] then 1 else 0) + Hamming(a[1..], b[1..]);
      assert a == b <==> a[0] == b[0] && a[1..] == b[1..] by {
        assert a == [a[0]] + a[1..] && b == [b[0]] + b[1..];
      }
      d
  }

  /** The bit differences from the probe to every registered hash, in gallery order. */
  function HashDistances(known: Gallery<PHash>, ph: PHash): seq<real>
  {
    seq(|known|, i requires 0 <= i < |known| => Hamming(ph, known[i].rep) as real)
  }

  /**
   * The hash branch of `api_verify`: scan the gallery keeping the first entry
   * strictly closer than the best so far (starting from 999), then accept the
   * winner when it differs in at most 10 bits.
   */
  method HashVerify(ph: PHash, known: Gallery<PHash>) returns (r: Response<int>)
    ensures r.Failure? <==> known == []
    ensures r.Failure? ==> r.error == NO_REGISTERED_STUDENTS
    ensures r.Decision? ==> (r.matched <==> r.distance <= HASH_TOLERANCE)
    ensures r.Decision? ==> exists k: nat :: IsFirstMin(HashDistances(known, ph), k)
                                      && r.distance == Hamming(ph, known[k].rep)
                                      && r.name == (if r.matched then known[k].name else UNKNOWN)
  {
    var best: Option<string> := None;
    var bestDist := HASH_SENTINEL;
    ghost var winner: nat := 0;
    ghost var ds := HashDistances(known, ph);
    for i := 0 to |known|
      invariant best.None? <==> i == 0
      invariant best.None? ==> bestDist == HASH_SENTINEL
      invariant best.Some? ==> winner < i && best.value == known[winner].name
                               && bestDist == Hamming(ph, known[winner].rep)
      invariant best.Some? ==> forall j :: 0 <= j < i ==> ds[winner] <= ds[j]
      invariant best.Some? ==> forall j :: 0 <= j < winner ==> ds[winner] < ds[j]
    {
      var d := Hamming(ph, known[i].rep);
      if d < bestDist {
        bestDist := d;
        best := Some(known[i].name);
        winner := i;
      }
    }
    if best.None? {
      return Failure(NO_REGISTERED_STUDENTS);
    }
    var matched := bestDist <= HASH_TOLERANCE;
    r := Decision(if matched then best.value else UNKNOWN, matched, bestDist);
    assert IsFirstMin(ds, winner);
  }

  /** What `api_verify` appends to the attendance file for a response. */
  function AttendanceText<D>(r: Response<D>, now: Timestamp, writeOk: bool): string
  {
    if r.Decision? && r.matched && writeOk then FormatLine(r.name, now) else []
  }

  /**
   * `api_verify` in embedding mode: decide, then record attendance exactly
   * once for an accepted probe; a failed write does not change the answer.
   */
  method ApiVerifyEmbedding<E>(log: AttendanceLog, faces: seq<E>, known: Gallery<E>, dist: (E, E) -> real,
                               now: Timestamp, writeOk: bool) returns (r: Response<real>)
    modifies log
    ensures r == EmbeddingVerify(faces, known, dist)
    ensures log.content == old(log.content) + AttendanceText(r, now, writeOk)
  {
    r := EmbeddingVerify(faces, known, dist);
    if r.Decision? && r.matched {
      log.RecordAttendance(r.name, now, writeOk);
    }
  }

  /** `api_verify` in hash mode: decide, then record attendance exactly once for an accepted probe. */
  method ApiVerifyHash(log: AttendanceLog, ph: PHash, known: Gallery<PHash>,
                       now: Timestamp, writeOk: bool) returns (r: Response<int>)
    modifies log
    ensures r.Failure? <==> known == []
    ensures r.Failure? ==> r.error == NO_REGISTERED_STUDENTS
    ensures r.Decision? ==> (r.matched <==> r.distance <= HASH_TOLERANCE)
    ensures r.Decision? ==> exists k: nat :: IsFirstMin(HashDistances(known, ph), k)
                                      && r.distance == Hamming(ph, known[k].rep)
                                      && r.name == (if r.matched then known[k].name else UNKNOWN)
    ensures log.content == old(log.content) + AttendanceText(r, now, writeOk)
  {
    r := HashVerify(ph, known);
    if r.Decision? && r.matched {
      log.RecordAttendance(r.name, now, writeOk);
    }
  }
}
