/**
 * The per-SKU notes: a map from a trimmed SKU to a trimmed, non-empty note,
 * read by `getNote`, written by `setNote`, emptied by `clearAllNotes` and
 * counted by `notesCount`. The map is what the user-script storage holds
 * under the notes key; `NoteStore` is that stored value, updated in place.
 */
module Notes {
  import opened Text

  type NoteMap = map<string, string>

  /** The key a SKU is filed under: the SKU with surrounding white space removed. */
  function NoteKey(sku: string): string {
    Trim(sku)
  }

  /** `getNote`: the note filed under the SKU, or "" for an empty key or no note. */
  function Lookup(m: NoteMap, sku: string): string {
    var key := NoteKey(sku);
    if key == "" then ""
    else if key in m then m[key]
    else ""
  }

  /** The map `setNote` stores: a non-empty trimmed note is filed, an empty one erases the key. */
  function Stored(m: NoteMap, sku: string, note: string): NoteMap {
    var key := NoteKey(sku);
    if key == "" then m
    else if Trim(note) != "" then m[key := Trim(note)]
    else m - {key}
  }

  /** `notesCount`: the number of SKUs with a note. */
  function Count(m: NoteMap): nat {
    |m.Keys|
  }

  /** What every stored map looks like: trimmed, non-empty keys and notes. */
  ghost predicate Valid(m: NoteMap) {
    forall k :: k in m ==> k != "" && Trim(k) == k && m[k] != "" && Trim(m[k]) == m[k]
  }

  /** Reading back what was just written gives the trimmed note, or "" when it was blank. */
  lemma SetThenGet(m: NoteMap, sku: string, note: string)
    requires NoteKey(sku) != ""
    ensures Lookup(Stored(m, sku, note), sku) == Trim(note)
  {
    TrimEmpty(note);
  }

  /** Writing a note leaves the note of every other key as it was. */
  lemma SetLeavesOthers(m: NoteMap, sku: string, note: string, other: string)
    requires NoteKey(other) != NoteKey(sku)
    ensures Lookup(Stored(m, sku, note), other) == Lookup(m, other)
  {
  }

  /** A SKU that trims to nothing changes nothing. */
  lemma BlankSkuIsNoOp(m: NoteMap, sku: string, note: string)
    requires forall p :: 0 <= p < |sku| ==> IsSpace(sku[p])
    ensures Stored(m, sku, note) == m
  {
    TrimEmpty(sku);
  }

  /** Writing the same note twice is the same as writing it once. */
  lemma SetIdempotent(m: NoteMap, sku: string, note: string)
    ensures Stored(Stored(m, sku, note), sku, note) == Stored(m, sku, note)
  {
  }

  /** Every write keeps the stored map well formed. */
  lemma SetKeepsValid(m: NoteMap, sku: string, note: string)
    requires Valid(m)
    ensures Valid(Stored(m, sku, note))
  {
    var key := NoteKey(sku);
    var r := Stored(m, sku, note);
    forall k | k in r
      ensures k != "" && Trim(k) == k && r[k] != "" && Trim(r[k]) == r[k]
    {
      if k == key {
        TrimIdempotent(sku);
        TrimIdempotent(note);
      } else {
        assert k in m && r[k] == m[k];
      }
    }
  }

  /** In a well-formed map, a SKU has a note exactly when its key is filed. */
  lemma LookupMeans(m: NoteMap, sku: string)
    ensures Valid(m) ==> (Lookup(m, sku) != "" <==> NoteKey(sku) in m)
  {
  }

  /** The count goes up by one for a new note, down by one for an erased one, and is otherwise unchanged. */
  lemma CountAfterSet(m: NoteMap, sku: string, note: string)
    requires NoteKey(sku) != ""
    ensures NoteKey(sku) !in m && Trim(note) != "" ==> Count(Stored(m, sku, note)) == Count(m) + 1
    ensures NoteKey(sku) in m && Trim(note) == "" ==> Count(Stored(m, sku, note)) + 1 == Count(m)
    ensures (NoteKey(sku) in m) == (Trim(note) != "") ==> Count(Stored(m, sku, note)) == Count(m)
  {
    var key := NoteKey(sku);
    if Trim(note) != "" {
      assert Stored(m, sku, note).Keys == m.Keys + {key};
    } else {
      assert Stored(m, sku, note).Keys == m.Keys - {key};
    }
  }

  /** No notes are counted exactly when the map is empty. */
  lemma CountZeroMeansEmpty(m: NoteMap)
    ensures Count(m) == 0 <==> m == map[]
  {
    if m != map[] {
      var k :| k in m;
      assert k in m.Keys;
    }
  }

  /** After clearing, there are no notes and every SKU reads as "". */
  lemma ClearedIsEmpty(sku: string)
    ensures Count(map[]) == 0 && Lookup(map[], sku) == "" && Valid(map[])
  {
  }

  /** The stored notes, updated in place by the operations of the notes panel. */
  class NoteStore {
    var notes: NoteMap

    /** The value read when nothing has been stored yet: no notes. */
    constructor ()
      ensures notes == map[]
    {
      notes := map[];
    }

    /** `getNote`; on a well-formed store, "" means no note is filed. */
    function GetNote(sku: string): (r: string)
      reads this
      ensures Valid(notes) ==> (r == "" <==> NoteKey(sku) !in notes)
    {
      LookupMeans(notes, sku);
      Lookup(notes, sku)
    }

    /** `setNote`: file the trimmed note under the trimmed SKU, or erase it when blank. */
    method SetNote(sku: string, note: string)
      modifies this
      ensures notes == Stored(old(notes), sku, note)
    {
      var key := Trim(sku);
      if key == "" {
        return;
      }
      var trimmed := Trim(note);
      if trimmed != "" {
        notes := notes[key := trimmed];
      } else {
        notes := notes - {key};
      }
    }

    /** `clearAllNotes`: store an empty map. */
    method ClearAllNotes()
      modifies this
      ensures notes == map[]
    {
      notes := map[];
    }

    /** `notesCount`. */
    function NotesCount(): (n: nat)
      reads this
      ensures n == 0 <==> notes == map[]
    {
      CountZeroMeansEmpty(notes);
      Count(notes)
    }
  }
}
