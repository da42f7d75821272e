/**
 * The `Entry` model: one journal entry row, the timestamps it is given when it
 * is created and edited, the newest-first order of the index page and the row
 * shape of the CSV export.
 *
 * Timestamps are values of a clock of natural numbers.
 */
module Entries {
  import opened Options

  datatype Entry = Entry(
    title: string,
    content: string,
    tags: string,
    createdAt: nat,
    updatedAt: nat,
    userId: Option<nat>)

  /** A row together with its primary key, as a query returns it. */
  datatype Record = Record(id: nat, entry: Entry)

  /** The row a successful add inserts: both timestamps default to the current time. */
  function NewEntry(title: string, content: string, tags: string, owner: nat, now: nat): (e: Entry)
    ensures e.title == title && e.content == content && e.tags == tags && e.userId == Some(owner)
    ensures e.createdAt == e.updatedAt == now && Stamped(e, now)
  {
    Entry(title, content, tags, now, now, Some(owner))
  }

  /**
   * The row after an edit overwrites title, content and tags. The `onupdate`
   * hook refreshes `updated_at` only when the flush issues an UPDATE, that is,
   * when one of the three columns actually changed.
   */
  function Edited(e: Entry, title: string, content: string, tags: string, now: nat): (edited: Entry)
    ensures edited.title == title && edited.content == content && edited.tags == tags
    ensures edited.(title := e.title, content := e.content, tags := e.tags, updatedAt := e.updatedAt) == e
    ensures (title != e.title || content != e.content || tags != e.tags) ==> edited.updatedAt == now
  {
    var changed := title != e.title || content != e.content || tags != e.tags;
    e.(title := title, content := content, tags := tags,
       updatedAt := if changed then now else e.updatedAt)
  }

  /** A row's timestamps: created no later than last updated, both no later than `now`. */
  predicate Stamped(e: Entry, now: nat) {
    e.createdAt <= e.updatedAt <= now
  }

  /** An edit at a time no earlier than the last update keeps the timestamps ordered. */
  lemma EditKeepsStamps(e: Entry, title: string, content: string, tags: string, now: nat)
    requires Stamped(e, now)
    ensures Stamped(Edited(e, title, content, tags, now), now)
    ensures Edited(e, title, content, tags, now).updatedAt >= e.updatedAt
    ensures Edited(e, title, content, tags, now).createdAt == e.createdAt
  {
  }

  /** Re-submitting the values already stored changes nothing, not even `updated_at`. */
  lemma EditWithSameValues(e: Entry, now: nat)
    ensures Edited(e, e.title, e.content, e.tags, now) == e
  {
  }

  // ---------------------------------------------------------------------------
  // Queries by owner

  /** The rows of `table` whose key is in `keys` and whose owner is `uid`. */
  function OwnedAmong(table: map<nat, Entry>, keys: set<nat>, uid: nat): (owned: set<Record>)
    ensures forall r :: r in owned <==>
      r.id in keys && r.id in table && table[r.id] == r.entry && r.entry.userId == Some(uid)
  {
    set id | id in keys && id in table && table[id].userId == Some(uid) :: Record(id, table[id])
  }

  /** `Entry.query.filter_by(user_id=uid)`, as a set of rows. */
  function Owned(table: map<nat, Entry>, uid: nat): (owned: set<Record>)
    ensures forall r :: r in owned <==> r.id in table && table[r.id] == r.entry && r.entry.userId == Some(uid)
  {
    OwnedAmong(table, table.Keys, uid)
  }

  /** Scanning one more key adds that row when it is owned, and nothing else. */
  lemma OwnedAmongStep(table: map<nat, Entry>, keys: set<nat>, id: nat, uid: nat)
    requires id in table && id !in keys
    ensures OwnedAmong(table, keys + {id}, uid) ==
      OwnedAmong(table, keys, uid) + (if table[id].userId == Some(uid) then {Record(id, table[id])} else {})
    ensures Record(id, table[id]) !in OwnedAmong(table, keys, uid)
  {
  }

  /** The same step, counted: the multiset and the number of the scanned owned rows. */
  lemma OwnedAmongCount(table: map<nat, Entry>, keys: set<nat>, id: nat, uid: nat)
    requires id in table && id !in keys
    ensures multiset(OwnedAmong(table, keys + {id}, uid)) == multiset(OwnedAmong(table, keys, uid)) +
      (if table[id].userId == Some(uid) then multiset{Record(id, table[id])} else multiset{})
    ensures |OwnedAmong(table, keys + {id}, uid)| ==
      |OwnedAmong(table, keys, uid)| + (if table[id].userId == Some(uid) then 1 else 0)
  {
    OwnedAmongStep(table, keys, id, uid);
  }

  // ---------------------------------------------------------------------------
  // Newest first

  /** Ordered by non-increasing `created_at`. */
  predicate NewestFirst(rows: seq<Record>) {
    forall i, j :: 0 <= i < j < |rows| ==> rows[i].entry.createdAt >= rows[j].entry.createdAt
  }

  lemma NewestFirstCons(x: Record, rows: seq<Record>)
    requires NewestFirst(rows)
    requires rows == [] || x.entry.createdAt >= rows[0].entry.createdAt
    ensures NewestFirst([x] + rows)
  {
    var out := [x] + rows;
    forall i, j | 0 <= i < j < |out| ensures out[i].entry.createdAt >= out[j].entry.createdAt {
      if i == 0 {
        assert out[j] == rows[j - 1];
        assert rows[0].entry.createdAt >= rows[j - 1].entry.createdAt;
      } else {
        assert out[i] == rows[i - 1] && out[j] == rows[j - 1];
      }
    }
  }

  lemma NewestFirstTail(rows: seq<Record>)
    requires rows != [] && NewestFirst(rows)
    ensures NewestFirst(rows[1..])
  {
    var tail := rows[1..];
    forall i, j | 0 <= i < j < |tail| ensures tail[i].entry.createdAt >= tail[j].entry.createdAt {
      assert tail[i] == rows[i + 1] && tail[j] == rows[j + 1];
    }
  }

  /** Inserts a row into a newest-first sequence, before the rows it is not older than. */
  function Insert(rows: seq<Record>, r: Record): (out: seq<Record>)
    requires NewestFirst(rows)
    ensures |out| == |rows| + 1
    ensures out[0] == r || (rows != [] && out[0] == rows[0])
    ensures NewestFirst(out)
    ensures multiset(out) == multiset(rows) + multiset{r}
  {
    if rows == [] || rows[0].entry.createdAt <= r.entry.createdAt then
      NewestFirstCons(r, rows);
      [r] + rows
    else
      NewestFirstTail(rows);
      var tail := Insert(rows[1..], r);
      assert tail[0] != r ==> tail[0] == rows[1];
      NewestFirstCons(rows[0], tail);
      assert rows == [rows[0]] + rows[1..];
      [rows[0]] + tail
  }

  /** `order_by(Entry.created_at.desc())`: a newest-first permutation of the rows. */
  function SortNewestFirst(rows: seq<Record>): (out: seq<Record>)
    ensures NewestFirst(out)
    ensures multiset(out) == multiset(rows)
  {
    if rows == [] then []
    else
      assert rows == [rows[0]] + rows[1..];
      Insert(SortNewestFirst(rows[1..]), rows[0])
  }

  // ---------------------------------------------------------------------------
  // CSV export

  /** One CSV cell before it is rendered as text. */
  datatype Field = Text(text: string) | Number(n: nat) | Time(t: nat)

  const HEADER: seq<Field> :=
    [Text("ID"), Text("Title"), Text("Content"), Text("Tags"), Text("Created At"), Text("Updated At")]

  /** The export row of one entry: its id, text columns and both timestamps. */
  function ExportRow(r: Record): (row: seq<Field>)
    ensures |row| == |HEADER| && row[0] == Number(r.id)
  {
    [Number(r.id), Text(r.entry.title), Text(r.entry.content), Text(r.entry.tags),
     Time(r.entry.createdAt), Time(r.entry.updatedAt)]
  }

  function ExportRows(rows: seq<Record>): (csv: seq<seq<Field>>)
    ensures |csv| == |rows|
    ensures forall i :: 0 <= i < |rows| ==> csv[i] == ExportRow(rows[i])
  {
    seq(|rows|, i requires 0 <= i < |rows| => ExportRow(rows[i]))
  }

  /** The export of `owned`: the header, then one row per owned entry, in some order. */
  ghost predicate IsExportOf(csv: seq<seq<Field>>, owned: set<Record>) {
    exists rows :: multiset(rows) == multiset(owned) && csv == [HEADER] + ExportRows(rows)
  }

  /** A listing of `owned` holds each owned row once and nothing else. */
  lemma ListingOfOwned(listing: seq<Record>, owned: set<Record>)
    requires multiset(listing) == multiset(owned)
    ensures |listing| == |owned|
    ensures forall r :: r in listing <==> r in owned
  {
    assert |multiset(listing)| == |listing|;
    assert |multiset(owned)| == |owned|;
    forall r ensures r in listing <==> r in owned {
      assert r in listing <==> r in multiset(listing);
    }
  }

  lemma ExportRowOfMember(rows: seq<Record>, r: Record)
    requires r in rows
    ensures ExportRow(r) in ExportRows(rows)
  {
    var i :| 0 <= i < |rows| && rows[i] == r;
    assert ExportRows(rows)[i] == ExportRow(r);
  }

  /** The rows the export writes for a listing: six columns each, one per listed row. */
  lemma ExportOfListing(rows: seq<Record>)
    ensures forall r :: r in rows ==> ExportRow(r) in ExportRows(rows)
    ensures forall row :: row in ExportRows(rows) ==> exists r :: r in rows && row == ExportRow(r)
  {
    forall r | r in rows ensures ExportRow(r) in ExportRows(rows) {
      ExportRowOfMember(rows, r);
    }
    forall row | row in ExportRows(rows) ensures exists r :: r in rows && row == ExportRow(r) {
      var i :| 0 <= i < |rows| && ExportRows(rows)[i] == row;
      assert rows[i] in rows;
    }
  }

  /** An export of `owned` is the header and one six-column row per owned row, and nothing else. */
  lemma ExportOfOwned(csv: seq<seq<Field>>, owned: set<Record>)
    requires IsExportOf(csv, owned)
    ensures |csv| == |owned| + 1 && csv[0] == HEADER
    ensures forall r :: r in owned ==> ExportRow(r) in csv[1..]
    ensures forall row :: row in csv[1..] ==> exists r :: r in owned && row == ExportRow(r)
    ensures forall i :: 1 <= i < |csv| ==> |csv[i]| == |HEADER|
  {
    var rows :| multiset(rows) == multiset(owned) && csv == [HEADER] + ExportRows(rows);
    ListingOfOwned(rows, owned);
    ExportOfListing(rows);
    assert csv[1..] == ExportRows(rows);
    forall i | 1 <= i < |csv| ensures |csv[i]| == |HEADER| {
      assert csv[i] == ExportRows(rows)[i - 1];
    }
  }

  /**
   * The index listing, the profile count and the export agree: a listing and an
   * export of the same owned rows hold the same rows, as many as there are owned
   * rows, and the export adds only the six-column header.
   */
  lemma ListingAndExportAgree(listing: seq<Record>, csv: seq<seq<Field>>, owned: set<Record>)
    requires multiset(listing) == multiset(owned)
    requires IsExportOf(csv, owned)
    ensures |csv| == |listing| + 1 && csv[0] == HEADER
    ensures forall r :: r in listing ==> ExportRow(r) in csv[1..]
    ensures forall row :: row in csv[1..] ==> exists r :: r in listing && row == ExportRow(r)
  {
    ListingOfOwned(listing, owned);
    ExportOfOwned(csv, owned);
  }
}
