/**
 The history store: an ordered list of past input texts, held in memory and
 mirrored in a durable medium. Every mutation computes the new list from the
 in-memory one, writes it whole to the durable medium, then installs it in memory.
 */
module TextHistory {
  import opened Seqs

  /**
   The list with every element whose position differs from `index` kept, in order
   (a position filter: at most one position can equal `index`).
   */
  function Without(history: seq<string>, index: int): seq<string>
  {
    if history == [] then []
    else
      var last := |history| - 1;
      Without(history[..last], index) + (if last != index then [history[last]] else [])
  }

  /** Filtering out a valid position removes exactly that entry; later entries shift down by one. */
  lemma {:induction false} WithoutInRange(history: seq<string>, index: int)
    requires 0 <= index < |history|
    ensures Without(history, index) == history[..index] + history[index + 1..]
    ensures |Without(history, index)| == |history| - 1
  {
    var last := |history| - 1;
    if index == last {
      WithoutOutOfRange(history[..last], index);
    } else {
      WithoutInRange(history[..last], index);
      assert history[..last][..index] == history[..index];
      assert history[..last][index + 1..] + [history[last]] == history[index + 1..];
    }
  }

  /** Filtering out a position that does not exist (negative, or past the end) changes nothing. */
  lemma {:induction false} WithoutOutOfRange(history: seq<string>, index: int)
    requires index < 0 || |history| <= index
    ensures Without(history, index) == history
  {
    if history != [] {
      var last := |history| - 1;
      WithoutOutOfRange(history[..last], index);
      assert history[..last] + [history[last]] == history;
    }
  }

  class HistoryStore {
    /** The in-memory list shown to the user. */
    var entries: seq<string>
    /** The list as last written to the durable medium. */
    var persisted: seq<string>

    /** The in-memory view and the durable view agree. */
    predicate Valid()
      reads this
    {
      entries == persisted
    }

    /** Start-up load: the saved list, or the empty list when nothing was saved. */
    constructor Load(saved: Option<seq<string>>)
      ensures Valid()
      ensures entries == if saved.Some? then saved.value else []
    {
      var loaded := if saved.Some? then saved.value else [];
      entries := loaded;
      persisted := loaded;
    }

    /**
     Appends `text` at the end; earlier entries are untouched. `storageAccepts` is
     whether the durable medium takes the write: a rejected write (over quota)
     throws before the in-memory list is replaced, so both views stay as they were.
     */
    method SaveTextToHistory(text: string, storageAccepts: bool) returns (written: bool)
      modifies this
      ensures written == storageAccepts
      ensures written ==> Valid() && entries == old(entries) + [text]
      ensures !written ==> entries == old(entries) && persisted == old(persisted)
    {
      var updatedHistory := entries + [text];
      if !storageAccepts {
        return false;
      }
      persisted := updatedHistory;
      entries := updatedHistory;
      written := true;
    }

    /**
     Removes the entry at `index`; an index that names no entry leaves the list as
     it was. A write the durable medium rejects leaves both views as they were.
     */
    method DeleteTextFromHistory(index: int, storageAccepts: bool) returns (written: bool)
      modifies this
      ensures written == storageAccepts
      ensures written ==> Valid()
      ensures written ==>
        if 0 <= index < |old(entries)|
        then entries == old(entries)[..index] + old(entries)[index + 1..]
        else entries == old(entries)
      ensures written && !(0 <= index < |old(entries)|) && old(Valid()) ==> persisted == old(persisted)
      ensures !written ==> entries == old(entries) && persisted == old(persisted)
    {
      var updatedHistory := Without(entries, index);
      if 0 <= index < |entries| {
        WithoutInRange(entries, index);
      } else {
        WithoutOutOfRange(entries, index);
      }
      if !storageAccepts {
        return false;
      }
      persisted := updatedHistory;
      entries := updatedHistory;
      written := true;
    }
  }
}
