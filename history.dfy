/** The generation history kept by the `useHistory` hook: a most-recent-first
    list of generated payloads, deduplicated by payload and capped at twenty
    entries, with favourites. Loading from and saving to local storage, and the
    clock and random source that make ids and timestamps, are outside the model:
    the id and the timestamp of a new entry are parameters. */
module History {
  import opened Options
  import opened Seqs

  /** `MAX_HISTORY_ITEMS`. */
  const MaxHistoryItems: nat := 20
  /** The length of the `recent` view. */
  const RecentCount: nat := 10

  /** One generated code, as stored: `kind` is the data-type name ("phone", "email", ...). */
  datatype HistoryItem = HistoryItem(
    id: string,
    kind: string,
    original: string,
    formatted: string,
    description: string,
    timestamp: int,
    isFavorite: bool)

  /** What a caller of `addToHistory` supplies: everything but the id and the timestamp. */
  datatype Entry = Entry(kind: string, original: string, formatted: string, description: string, isFavorite: bool)

  /** The stored item for an entry, with its generated id and timestamp. */
  function Stamp(e: Entry, id: string, timestamp: int): (r: HistoryItem)
    ensures r.id == id && r.timestamp == timestamp
    ensures r.kind == e.kind && r.original == e.original && r.formatted == e.formatted
    ensures r.description == e.description && r.isFavorite == e.isFavorite
  {
    HistoryItem(id, e.kind, e.original, e.formatted, e.description, timestamp, e.isFavorite)
  }

  /** The tests the hook passes to `filter` and `find`. */
  function OtherPayload(formatted: string): HistoryItem -> bool {
    (h: HistoryItem) => h.formatted != formatted
  }

  function OtherId(id: string): HistoryItem -> bool {
    (h: HistoryItem) => h.id != id
  }

  function HasId(id: string): HistoryItem -> bool {
    (h: HistoryItem) => h.id == id
  }

  predicate IsFavorite(h: HistoryItem) {
    h.isFavorite
  }

  /** No two entries carry the same payload. */
  predicate DistinctFormatted(s: seq<HistoryItem>) {
    forall i, j :: 0 <= i < j < |s| ==> s[i].formatted != s[j].formatted
  }

  /** The list after adding `item`: older entries with the same payload are
      dropped, the item goes first, and the list is cut to twenty. */
  function Added(prev: seq<HistoryItem>, item: HistoryItem): (r: seq<HistoryItem>)
    ensures 1 <= |r| <= MaxHistoryItems
    ensures r[0] == item
    ensures forall k :: 1 <= k < |r| ==> r[k].formatted != item.formatted && r[k] in prev
    ensures IsSubsequence(r[1..], prev)
  {
    var others := Filter(prev, OtherPayload(item.formatted));
    FilterIsSubsequence(prev, OtherPayload(item.formatted));
    var r := Take([item] + others, MaxHistoryItems);
    assert r[1..] == others[..|r| - 1];
    PrefixIsSubsequence(others, prev, |r| - 1);
    r
  }

  /** The list after removing every entry with the given id. */
  function Removed(prev: seq<HistoryItem>, id: string): (r: seq<HistoryItem>)
    ensures forall x :: x in r <==> x in prev && x.id != id
    ensures forall x :: multiset(r)[x] == if x.id != id then multiset(prev)[x] else 0
    ensures IsSubsequence(r, prev)
  {
    FilterIsSubsequence(prev, OtherId(id));
    FilterMultiset(prev, OtherId(id));
    Filter(prev, OtherId(id))
  }

  /** One entry with its favourite flag flipped when it carries the id. */
  function ToggleOne(h: HistoryItem, id: string): HistoryItem {
    if h.id == id then h.(isFavorite := !h.isFavorite) else h
  }

  /** The list after flipping the favourite flag of every entry with the given id. */
  function Toggled(prev: seq<HistoryItem>, id: string): (r: seq<HistoryItem>)
    ensures |r| == |prev|
    ensures forall k :: 0 <= k < |r| ==>
      r[k].(isFavorite := prev[k].isFavorite) == prev[k] &&
      (r[k].isFavorite != prev[k].isFavorite <==> prev[k].id == id)
  {
    Map(prev, h => ToggleOne(h, id))
  }

  /** The `favorites` view: the favourite entries in list order. */
  function Favorites(s: seq<HistoryItem>): (r: seq<HistoryItem>)
    ensures forall x :: x in r <==> x in s && x.isFavorite
    ensures forall x :: multiset(r)[x] == if x.isFavorite then multiset(s)[x] else 0
    ensures IsSubsequence(r, s)
  {
    FilterIsSubsequence(s, IsFavorite);
    FilterMultiset(s, IsFavorite);
    Filter(s, IsFavorite)
  }

  /** The `recent` view: the first ten entries, or all of them when there are fewer. */
  function Recent(s: seq<HistoryItem>): (r: seq<HistoryItem>)
    ensures |r| == if |s| < RecentCount then |s| else RecentCount
    ensures forall k :: 0 <= k < |r| ==> r[k] == s[k]
  {
    Take(s, RecentCount)
  }

  /** `getHistoryItem`: the first entry with the id, if there is one. */
  function Lookup(s: seq<HistoryItem>, id: string): (r: Option<HistoryItem>)
    ensures r.None? <==> forall k :: 0 <= k < |s| ==> s[k].id != id
    ensures r.Some? ==> exists i :: 0 <= i < |s| && s[i] == r.value && s[i].id == id &&
                                 forall j :: 0 <= j < i ==> s[j].id != id
  {
    Find(s, HasId(id))
  }

  /** The hook's state. Every operation replaces the whole list, as the hook's
      `setHistory` does. */
  class HistoryStore {
    var history: seq<HistoryItem>

    /** The invariant the operations keep: at most twenty entries, one per payload. */
    predicate Valid()
      reads this
    {
      |history| <= MaxHistoryItems && DistinctFormatted(history)
    }

    constructor()
      ensures history == [] && Valid()
    {
      history := [];
    }

    /** `addToHistory`: returns the id given to the new entry. */
    method AddToHistory(e: Entry, id: string, now: int) returns (newId: string)
      modifies this
      ensures history == Added(old(history), Stamp(e, id, now))
      ensures newId == history[0].id == id
      ensures old(Valid()) ==> Valid()
    {
      var item := Stamp(e, id, now);
      if Valid() {
        AddedKeepsDistinct(history, item);
      }
      history := Added(history, item);
      newId := item.id;
    }

    /** `removeFromHistory`. */
    method RemoveFromHistory(id: string)
      modifies this
      ensures history == Removed(old(history), id)
      ensures old(Valid()) ==> Valid()
    {
      if Valid() {
        RemovedKeepsDistinct(history, id);
      }
      history := Removed(history, id);
    }

    /** `toggleFavorite`. */
    method ToggleFavorite(id: string)
      modifies this
      ensures history == Toggled(old(history), id)
      ensures old(Valid()) ==> Valid()
    {
      history := Toggled(history, id);
    }

    /** `clearHistory`. */
    method ClearHistory()
      modifies this
      ensures history == [] && Valid()
    {
      history := [];
    }

    /** `getHistoryItem`. */
    function GetHistoryItem(id: string): (r: Option<HistoryItem>)
      reads this
      ensures r.None? <==> forall k :: 0 <= k < |history| ==> history[k].id != id
      ensures r.Some? ==> exists i :: 0 <= i < |history| && history[i] == r.value && history[i].id == id &&
                                   forall j :: 0 <= j < i ==> history[j].id != id
    {
      Lookup(history, id)
    }

    /** The `favorites` and `recent` views the hook returns. */
    function FavoritesView(): (r: seq<HistoryItem>)
      reads this
      ensures forall x :: x in r <==> x in history && x.isFavorite
      ensures forall x :: multiset(r)[x] == if x.isFavorite then multiset(history)[x] else 0
      ensures IsSubsequence(r, history)
    {
      Favorites(history)
    }

    function RecentView(): (r: seq<HistoryItem>)
      reads this
      ensures |r| == if |history| < RecentCount then |history| else RecentCount
      ensures r == history[..|r|]
    {
      Recent(history)
    }
  }

  // ---------------------------------------------------------------------------
  // Properties of the list operations

  /** Filtering never brings two entries with the same payload together. */
  lemma {:induction false} FilterKeepsDistinct(s: seq<HistoryItem>, keep: HistoryItem -> bool)
    requires DistinctFormatted(s)
    ensures DistinctFormatted(Filter(s, keep))
  {
    if s != [] {
      var rest := Filter(s[1..], keep);
      FilterKeepsDistinct(s[1..], keep);
      if keep(s[0]) {
        forall k | 0 <= k < |rest| ensures rest[k].formatted != s[0].formatted {
          var j :| 0 <= j < |s[1..]| && s[1..][j] == rest[k];
          assert s[j + 1] == rest[k];
        }
        assert Filter(s, keep) == [s[0]] + rest;
      } else {
        assert Filter(s, keep) == rest;
      }
    }
  }

  /** Adding keeps the payloads distinct: the new item's payload has been
      filtered out of the older entries, which were distinct already. */
  lemma AddedKeepsDistinct(prev: seq<HistoryItem>, item: HistoryItem)
    requires DistinctFormatted(prev)
    ensures DistinctFormatted(Added(prev, item))
  {
    var others := Filter(prev, OtherPayload(item.formatted));
    FilterKeepsDistinct(prev, OtherPayload(item.formatted));
    var r := Added(prev, item);
    assert r == Take([item] + others, MaxHistoryItems);
    forall i, j | 0 <= i < j < |r| ensures r[i].formatted != r[j].formatted {
      if i > 0 {
        assert r[i] == others[i - 1] && r[j] == others[j - 1];
      }
    }
  }

  lemma RemovedKeepsDistinct(prev: seq<HistoryItem>, id: string)
    requires DistinctFormatted(prev)
    ensures DistinctFormatted(Removed(prev, id))
  {
    FilterKeepsDistinct(prev, OtherId(id));
  }

  /** Every older entry with another payload survives an addition to a list
      that had room for it. */
  lemma AddedKeepsOthers(prev: seq<HistoryItem>, item: HistoryItem, h: HistoryItem)
    requires |prev| < MaxHistoryItems
    requires h in prev && h.formatted != item.formatted
    ensures h in Added(prev, item)
  {
    var others := Filter(prev, OtherPayload(item.formatted));
    assert h in others;
    assert Added(prev, item) == [item] + others;
  }

  /** Which older entries an addition keeps: an entry with another payload
      survives exactly when fewer than nineteen entries with other payloads
      come before it, and then it sits right after all of those. */
  lemma AddedKeepsNewest(prev: seq<HistoryItem>, item: HistoryItem, i: nat)
    requires i < |prev| && prev[i].formatted != item.formatted
    ensures var before := |Filter(prev[..i], OtherPayload(item.formatted))|;
            var r := Added(prev, item);
            && (before < MaxHistoryItems - 1 <==> 1 + before < |r|)
            && (before < MaxHistoryItems - 1 ==> r[1 + before] == prev[i])
  {
    var keep := OtherPayload(item.formatted);
    var front := Filter(prev[..i], keep);
    assert prev == prev[..i] + ([prev[i]] + prev[i + 1..]);
    FilterConcat(prev[..i], [prev[i]] + prev[i + 1..], keep);
    FilterConcat([prev[i]], prev[i + 1..], keep);
    assert Filter([prev[i]], keep) == [prev[i]];
    var others := Filter(prev, keep);
    assert others == front + ([prev[i]] + Filter(prev[i + 1..], keep));
    assert others[|front|] == prev[i];
    var r := Added(prev, item);
    assert r == Take([item] + others, MaxHistoryItems);
  }

  /** Adding a new payload to a short list just puts it in front. */
  lemma AddFresh(prev: seq<HistoryItem>, item: HistoryItem)
    requires |prev| < MaxHistoryItems
    requires forall k :: 0 <= k < |prev| ==> prev[k].formatted != item.formatted
    ensures Added(prev, item) == [item] + prev
  {
    FilterUnchangedIff(prev, OtherPayload(item.formatted));
  }

  /** Removing an id nobody carries changes nothing. */
  lemma RemoveUnknown(prev: seq<HistoryItem>, id: string)
    requires forall k :: 0 <= k < |prev| ==> prev[k].id != id
    ensures Removed(prev, id) == prev
  {
    FilterUnchangedIff(prev, OtherId(id));
  }

  /** Toggling keeps the payloads, so it keeps them distinct. */
  lemma ToggledKeepsDistinct(prev: seq<HistoryItem>, id: string)
    requires DistinctFormatted(prev)
    ensures DistinctFormatted(Toggled(prev, id))
  {
    var r := Toggled(prev, id);
    forall k | 0 <= k < |r| ensures r[k].formatted == prev[k].formatted {
      assert r[k].(isFavorite := prev[k].isFavorite) == prev[k];
    }
  }

  /** Toggling the same id twice restores the list. */
  lemma ToggleTwice(prev: seq<HistoryItem>, id: string)
    ensures Toggled(Toggled(prev, id), id) == prev
  {
    var once := Toggled(prev, id);
    var twice := Toggled(once, id);
    forall k | 0 <= k < |prev| ensures twice[k] == prev[k] {
      assert once[k].(isFavorite := prev[k].isFavorite) == prev[k];
      assert twice[k].(isFavorite := once[k].isFavorite) == once[k];
    }
  }

  /** Toggling an id nobody carries changes nothing. */
  lemma ToggleUnknown(prev: seq<HistoryItem>, id: string)
    requires forall k :: 0 <= k < |prev| ==> prev[k].id != id
    ensures Toggled(prev, id) == prev
  {
    var r := Toggled(prev, id);
    forall k | 0 <= k < |prev| ensures r[k] == prev[k] {
      assert r[k].(isFavorite := prev[k].isFavorite) == prev[k];
    }
  }
}
