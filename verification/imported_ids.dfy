// The public ids an import gives its posts (crates/hn-import/src/main.rs): a timestamp and the
// HN id, with one bit turned over for a story's own text, which shares the story's id.
module ImportedIds {
  import opened Common
  import opened Bits
  import opened PublicId
  import opened ReplyTree
  import opened ImportTree
  import opened ImportedTree

  const TWO_31: nat := 0x8000_0000
  const TWO_32: nat := 0x1_0000_0000

  /** The low 32 bits of the HN id, exclusive-or the salt. */
  function Salted(hnId: int, isOpening: bool): (random: nat)
    ensures random < TWO_32
  {
    var low := hnId % TWO_32;
    if !isOpening then low else if low < TWO_31 then low + TWO_31 else low - TWO_31
  }

  function PublicIdOf(createdSecs: int, hnId: int, isOpening: bool): Result<Id, IdError> {
    WithWidth(1000 * (if createdSecs > 0 then createdSecs else 0), Salted(hnId, isOpening), MIN_CHARS)
  }

  /** Two imported ids are equal exactly when both their times and their salted HN ids are. */
  lemma PublicIdsDiffer(m: nat, n: nat, v: nat, w: nat)
    requires m <= MAX_TIMESTAMP_MS && n <= MAX_TIMESTAMP_MS && v < TWO_32 && w < TWO_32
    ensures var x, y := WithWidth(m, v, MIN_CHARS), WithWidth(n, w, MIN_CHARS);
            x.Ok? && y.Ok? && (x == y <==> m == n && v == w)
  {
    hide WithWidth, Timestamp, Random, LowBits, Scale, IsId;
    FieldsRoundTrip(m, v, MIN_CHARS);
    FieldsRoundTrip(n, w, MIN_CHARS);
    ScaleOfWords(2);
    LowBitsSmall(v, 32);
    LowBitsSmall(w, 32);
  }

  predicate InRange(createdSecs: int) {
    1000 * createdSecs <= MAX_TIMESTAMP_MS
  }

  /** An imported id holds its item's time in milliseconds, never before 1970, and its HN id, the top
      of 32 bits turned over for a story's own text. */
  lemma ImportedIdHolds(createdSecs: int, hnId: int, isOpening: bool)
    requires InRange(createdSecs) && 0 <= hnId < TWO_31
    ensures var r := PublicIdOf(createdSecs, hnId, isOpening);
            && r.Ok? && |r.value| == 16
            && Timestamp(r.value) == (if createdSecs < 0 then 0 else 1000 * createdSecs)
            && Random(r.value) == (if isOpening then hnId + TWO_31 else hnId)
  {
    hide WithWidth, Timestamp, Random, LowBits, Scale, IsId;
    FieldsRoundTrip(1000 * (if createdSecs > 0 then createdSecs else 0), Salted(hnId, isOpening), MIN_CHARS);
    ScaleOfWords(2);
    LowBitsSmall(Salted(hnId, isOpening), 32);
  }

  /** What the import calls its `i`-th post, created at that time. */
  function PostId(p: Placed, createdSecs: int): Result<Id, IdError> {
    PublicIdOf(createdSecs, p.item.id, p.isOpening)
  }

  lemma SaltedDiffer(a: int, b: int, x: bool, y: bool)
    requires 0 <= a < TWO_31 && 0 <= b < TWO_31 && a != b
    ensures Salted(a, x) != Salted(b, y)
  {
  }

  /** Posts of HN ids below 2^31, at times the ids have room for, get distinct public ids, so an
      import of them is a table that replies can be posted to. */
  lemma ImportTakesReplies(story: Item, levels: Levels, seen: set<int>, created: seq<int>, ids: seq<string>)
    requires var out := Flatten(story, levels, seen).out;
             && |created| == |ids| == |out|
             && (forall i :: 0 <= i < |out| ==> 0 <= out[i].item.id < TWO_31 && InRange(created[i]))
             && forall i :: 0 <= i < |out| ==> PostId(out[i], created[i]) == Ok(ids[i])
    ensures IsTable(ImportedRows(Linked(SortByPath(Flatten(story, levels, seen).out)), ids))
  {
    hide Flatten, SortByPath, Linked, Salted, WithWidth, IsTable;
    PlacementAccountsForItems(story, levels, seen);
    var out := Flatten(story, levels, seen).out;
    forall i, j | 0 <= i < j < |out| ensures ids[i] != ids[j] {
      SaltedDiffer(out[i].item.id, out[j].item.id, out[i].isOpening, out[j].isOpening);
      PublicIdsDiffer(1000 * (if created[i] > 0 then created[i] else 0), 1000 * (if created[j] > 0 then created[j] else 0),
                      Salted(out[i].item.id, out[i].isOpening), Salted(out[j].item.id, out[j].isOpening));
    }
    ImportIsATable(story, levels, seen, ids);
  }
}
