/**
  The bounded calculation history of the discount calculator, kept newest
  first under one key of the browser's key-value storage (src/utils/storage.ts).

  The storage backend is the class `Storage`: a map from keys to stored items
  and a flag saying whether the backend answers at all. Every public operation
  first probes the backend, and is a no-op (or returns the empty history) when
  the probe fails; a failing setItem or removeItem is a boolean parameter.
  Date.now() is a parameter too, one per reading.
 */
module HistoryStore {
  import opened Wrappers
  import opened Seqs
  import opened Digits
  import opened Json

  /** The key the history lives under. */
  const StorageKey: string := "discount-calc-history"

  /** The longest history the store writes. */
  const MaxHistoryItems: nat := 10

  /** The key the availability probe writes and removes again. */
  const ProbeKey: string := "__localStorage_test__"

  /**
    What getItem can hand back for a key: text that JSON.parse maps to a
    value, whoever wrote it, or text that JSON.parse rejects (the empty text,
    which the code treats as "no history" before parsing it, is one of these).
   */
  datatype Item = Serialized(value: JValue) | Unparsable(text: string)

  /** One recorded calculation, as the TypeScript interface HistoryEntry declares it. */
  datatype HistoryEntry = HistoryEntry(
    id: string,
    originalPrice: real,
    discountPercent: real,
    finalPrice: real,
    timestamp: real)

  predicate HasString(fields: map<string, JValue>, name: string) {
    name in fields && fields[name].JStr?
  }

  predicate HasNumber(fields: map<string, JValue>, name: string) {
    name in fields && fields[name].JNum?
  }

  /**
    The shape test of getHistory's filter: a non-null object whose `id` is a
    string and whose four other fields are numbers. Other fields may be present.
   */
  predicate IsEntry(v: JValue) {
    && v.JObject?
    && HasString(v.fields, "id")
    && HasNumber(v.fields, "originalPrice")
    && HasNumber(v.fields, "discountPercent")
    && HasNumber(v.fields, "finalPrice")
    && HasNumber(v.fields, "timestamp")
  }

  /** The object JSON.stringify writes for an entry. */
  function ToJson(e: HistoryEntry): (v: JValue)
    ensures IsEntry(v)
    ensures v.fields.Keys == {"id", "originalPrice", "discountPercent", "finalPrice", "timestamp"}
  {
    JObject(map[
      "id" := JStr(e.id),
      "originalPrice" := JNum(e.originalPrice),
      "discountPercent" := JNum(e.discountPercent),
      "finalPrice" := JNum(e.finalPrice),
      "timestamp" := JNum(e.timestamp)])
  }

  /** The entry a well-shaped value stands for; None for a value the shape test rejects. */
  function FromJson(v: JValue): (r: Option<HistoryEntry>)
    ensures r.Some? <==> IsEntry(v)
  {
    if IsEntry(v) then
      Some(HistoryEntry(
        v.fields["id"].s,
        v.fields["originalPrice"].n,
        v.fields["discountPercent"].n,
        v.fields["finalPrice"].n,
        v.fields["timestamp"].n))
    else None
  }

  /** Writing an entry and reading it back gives the same entry. */
  lemma FromToJson(e: HistoryEntry)
    ensures FromJson(ToJson(e)) == Some(e)
  {
  }

  /** A well-shaped value without extra fields is exactly the text written for its entry. */
  lemma ToFromJson(v: JValue)
    requires IsEntry(v)
    requires v.fields.Keys == {"id", "originalPrice", "discountPercent", "finalPrice", "timestamp"}
    ensures ToJson(FromJson(v).value) == v
  {
    var w := ToJson(FromJson(v).value);
    assert w.fields.Keys == v.fields.Keys;
    assert forall k :: k in v.fields ==> w.fields[k] == v.fields[k];
  }

  /** The entry saveCalculation creates: its id is the clock's decimal text. */
  function NewEntry(originalPrice: real, discountPercent: real, finalPrice: real, idClock: nat, stampClock: nat): (e: HistoryEntry)
    ensures AllDigits(e.id) && DigitsValue(e.id) == idClock
    ensures e.timestamp == stampClock as real
    ensures e.originalPrice == originalPrice && e.discountPercent == discountPercent && e.finalPrice == finalPrice
  {
    HistoryEntry(NatToDigits(idClock), originalPrice, discountPercent, finalPrice, stampClock as real)
  }

  /** Entries created at different clock readings have different ids. */
  lemma NewEntryIdsDistinct(p: real, d: real, f: real, c1: nat, c2: nat, p': real, d': real, f': real, s1: nat, s2: nat)
    requires c1 != c2
    ensures NewEntry(p, d, f, c1, s1).id != NewEntry(p', d', f', c2, s2).id
  {
    NatToDigitsInjective(c1, c2);
  }

  predicate AllEntries(h: seq<JValue>) {
    forall i :: 0 <= i < |h| ==> IsEntry(h[i])
  }

  /** getHistory's filter over the parsed array. */
  function ValidEntries(elems: seq<JValue>): (h: seq<JValue>)
    ensures AllEntries(h)
    ensures |h| <= |elems|
  {
    Filter(IsEntry, elems)
  }

  /**
    The history getHistory reads from a store it has found available: the
    well-shaped elements of the stored array, and the empty history when the
    key is absent, its text is empty or not JSON, or it does not hold an array.
   */
  function ReadHistory(store: map<string, Item>): (h: seq<JValue>)
    ensures AllEntries(h)
    ensures StorageKey !in store ==> h == []
    ensures StorageKey in store && store[StorageKey].Unparsable? ==> h == []
    ensures StorageKey in store && store[StorageKey].Serialized? && !store[StorageKey].value.JArray? ==> h == []
  {
    if StorageKey !in store then []
    else match store[StorageKey]
      case Unparsable(_) => []
      case Serialized(v) => if v.JArray? then ValidEntries(v.elems) else []
  }

  /**
    What getHistory returns is exactly the well-shaped elements of the stored
    array, in their stored order: a subsequence holding each well-shaped element
    as often as the array does, and nothing else.
   */
  lemma ReadHistoryIsFilter(store: map<string, Item>, elems: seq<JValue>)
    requires StorageKey in store && store[StorageKey] == Serialized(JArray(elems))
    ensures IsSubsequence(ReadHistory(store), elems)
    ensures forall v :: multiset(ReadHistory(store))[v] == if IsEntry(v) then multiset(elems)[v] else 0
  {
    FilterIsSubsequence(IsEntry, elems);
    FilterMultiset(IsEntry, elems);
  }

  /**
    Those properties pin the result down: any subsequence of the stored array
    made of well-shaped elements, holding each of them as often as the array
    does, is what getHistory returns.
   */
  lemma ReadHistoryUnique(store: map<string, Item>, elems: seq<JValue>, t: seq<JValue>)
    requires StorageKey in store && store[StorageKey] == Serialized(JArray(elems))
    requires IsSubsequence(t, elems) && AllEntries(t)
    requires forall v :: IsEntry(v) ==> multiset(t)[v] == multiset(elems)[v]
    ensures ReadHistory(store) == t
  {
    FilterUnique(IsEntry, elems, t);
  }

  /** A stored pair of one well-shaped and one malformed element reads back as the well-shaped one alone. */
  lemma ReadHistoryDropsMalformed(store: map<string, Item>, good: JValue, bad: JValue)
    requires IsEntry(good) && !IsEntry(bad)
    ensures ReadHistory(store[StorageKey := Serialized(JArray([good, bad]))]) == [good]
  {
    var m := store[StorageKey := Serialized(JArray([good, bad]))];
    assert ReadHistory(m) == Filter(IsEntry, [good, bad]);
    assert [good, bad][1..] == [bad];
    assert [bad][1..] == [];
    assert Filter(IsEntry, [bad]) == [];
  }

  /** When every stored element is well-shaped, getHistory returns the stored array unchanged. */
  lemma ReadHistoryAllValid(store: map<string, Item>, elems: seq<JValue>)
    requires StorageKey in store && store[StorageKey] == Serialized(JArray(elems))
    requires AllEntries(elems)
    ensures ReadHistory(store) == elems
  {
    FilterIdentity(IsEntry, elems);
  }

  /** Writing a history of well-shaped entries and reading it back gives the same history. */
  lemma ReadBack(store: map<string, Item>, h: seq<JValue>)
    requires AllEntries(h)
    ensures ReadHistory(store[StorageKey := Serialized(JArray(h))]) == h
  {
    ReadHistoryAllValid(store[StorageKey := Serialized(JArray(h))], h);
  }

  /** The history saveCalculation writes: the new entry first, then the old history, cut to ten. */
  function Recorded(h: seq<JValue>, e: HistoryEntry): (r: seq<JValue>)
    ensures 1 <= |r| <= MaxHistoryItems
    ensures r[0] == ToJson(e)
    ensures r[1..] == Take(h, MaxHistoryItems - 1)
    ensures AllEntries(h) ==> AllEntries(r)
  {
    Take([ToJson(e)] + h, MaxHistoryItems)
  }

  /** The entries of `es`, serialized, the last one first. */
  function NewestFirst(es: seq<HistoryEntry>): (r: seq<JValue>)
    ensures |r| == |es|
  {
    seq(|es|, i requires 0 <= i < |es| => ToJson(es[|es| - 1 - i]))
  }

  lemma NewestFirstCons(es: seq<HistoryEntry>)
    requires es != []
    ensures NewestFirst(es) == NewestFirst(es[1..]) + [ToJson(es[0])]
  {
    var l, r := NewestFirst(es), NewestFirst(es[1..]) + [ToJson(es[0])];
    forall i | 0 <= i < |l| ensures l[i] == r[i] {
      if i < |es| - 1 {
        assert es[1..][|es| - 2 - i] == es[|es| - 1 - i];
      }
    }
  }

  /** The history after saveCalculation has been called with each of `es` in turn. */
  function RecordAll(h: seq<JValue>, es: seq<HistoryEntry>): (r: seq<JValue>)
    ensures es != [] ==> 1 <= |r| <= MaxHistoryItems && r[0] == ToJson(es[|es| - 1])
    ensures AllEntries(h) ==> AllEntries(r)
    decreases |es|
  {
    if es == [] then h else RecordAll(Recorded(h, es[0]), es[1..])
  }

  /**
    After one or more saves the history is the newest ten of all entries
    saved, followed by the older history, newest first.
   */
  lemma {:induction false} RecordAllNewestFirst(h: seq<JValue>, es: seq<HistoryEntry>)
    requires es != []
    ensures RecordAll(h, es) == Take(NewestFirst(es) + h, MaxHistoryItems)
    decreases |es|
  {
    var e, rest := es[0], es[1..];
    if rest == [] {
      NewestFirstCons(es);
      assert NewestFirst(es) + h == [ToJson(e)] + h;
    } else {
      var saved := Recorded(h, e);
      assert RecordAll(h, es) == RecordAll(saved, rest);
      RecordAllNewestFirst(saved, rest);
      SaveUnderNewer(es, h);
    }
  }

  /** Saving the oldest of `es` first and then putting the newer ones in front, cut to ten. */
  lemma SaveUnderNewer(es: seq<HistoryEntry>, h: seq<JValue>)
    requires es != []
    ensures Take(NewestFirst(es[1..]) + Recorded(h, es[0]), MaxHistoryItems) == Take(NewestFirst(es) + h, MaxHistoryItems)
  {
    var older := [ToJson(es[0])] + h;
    NewestFirstCons(es);
    assert Recorded(h, es[0]) == Take(older, MaxHistoryItems);
    TakeAppendTake(NewestFirst(es[1..]), older, MaxHistoryItems);
    assert NewestFirst(es[1..]) + [ToJson(es[0])] + h == NewestFirst(es[1..]) + older;
  }

  /**
    Ten or more saves leave exactly ten entries: the ten most recent, newest
    first, whatever the history was before.
   */
  lemma TenMostRecent(h: seq<JValue>, es: seq<HistoryEntry>)
    requires |es| >= MaxHistoryItems
    ensures RecordAll(h, es) == NewestFirst(es[|es| - MaxHistoryItems..])
    ensures |RecordAll(h, es)| == MaxHistoryItems
  {
    RecordAllNewestFirst(h, es);
    var recent := es[|es| - MaxHistoryItems..];
    forall i | 0 <= i < MaxHistoryItems
      ensures RecordAll(h, es)[i] == NewestFirst(recent)[i]
    {
      assert recent[|recent| - 1 - i] == es[|es| - 1 - i];
    }
  }

  /**
    The stored entry that deleteCalculation's filter removes: one whose id is
    `id`. On a well-shaped value it is the test `entry.id !== id` negated, on
    the entry the value stands for.
   */
  predicate HasId(v: JValue, id: string)
    ensures IsEntry(v) ==> (HasId(v, id) <==> FromJson(v).value.id == id)
  {
    v.JObject? && "id" in v.fields && v.fields["id"] == JStr(id)
  }

  /** The history deleteCalculation writes back: `h` without the entries whose id is `id`. */
  function WithoutId(h: seq<JValue>, id: string): (r: seq<JValue>)
    ensures forall i :: 0 <= i < |r| ==> !HasId(r[i], id)
    ensures |r| <= |h|
  {
    Filter(v => !HasId(v, id), h)
  }

  /**
    Deleting removes the entries with that id and only them: the rest stay,
    each as often as before and in their order, and they stay well-shaped.
   */
  lemma WithoutIdKeepsOthers(h: seq<JValue>, id: string)
    ensures IsSubsequence(WithoutId(h, id), h)
    ensures forall v :: multiset(WithoutId(h, id))[v] == if HasId(v, id) then 0 else multiset(h)[v]
    ensures AllEntries(h) ==> AllEntries(WithoutId(h, id))
  {
    var p := v => !HasId(v, id);
    FilterIsSubsequence(p, h);
    FilterMultiset(p, h);
    FilterMembers(p, h);
    if AllEntries(h) {
      forall i | 0 <= i < |WithoutId(h, id)| ensures IsEntry(WithoutId(h, id)[i]) {
        assert WithoutId(h, id)[i] in h;
      }
    }
  }

  /** Deleting an id no entry has leaves the history as it was. */
  lemma WithoutAbsentId(h: seq<JValue>, id: string)
    requires forall i :: 0 <= i < |h| ==> !HasId(h[i], id)
    ensures WithoutId(h, id) == h
  {
    FilterIdentity(v => !HasId(v, id), h);
  }

  /** The state every successful write leaves behind: at most ten well-shaped entries, or no history. */
  predicate Bounded(store: map<string, Item>) {
    StorageKey in store ==>
      && store[StorageKey].Serialized?
      && store[StorageKey].value.JArray?
      && |store[StorageKey].value.elems| <= MaxHistoryItems
      && AllEntries(store[StorageKey].value.elems)
  }

  /** In a bounded store getHistory returns the stored array itself. */
  lemma BoundedReadHistory(store: map<string, Item>)
    requires Bounded(store) && StorageKey in store
    ensures ReadHistory(store) == store[StorageKey].value.elems
  {
    ReadHistoryAllValid(store, store[StorageKey].value.elems);
  }

  /** Every key except the history key and the probe key keeps its item. */
  ghost predicate SameOutside(before: map<string, Item>, after: map<string, Item>) {
    forall k :: k != StorageKey && k != ProbeKey ==>
      (k in before <==> k in after) && (k in before ==> before[k] == after[k])
  }

  /** Removing the probe key touches neither the history nor any other key. */
  lemma ProbeFacts(m: map<string, Item>)
    ensures SameOutside(m, m - {ProbeKey})
    ensures ReadHistory(m - {ProbeKey}) == ReadHistory(m)
    ensures Bounded(m) ==> Bounded(m - {ProbeKey})
  {
    assert StorageKey[0] != ProbeKey[0];
  }

  /** Writing a history of at most ten well-shaped entries is read back as written and keeps the store bounded. */
  lemma WriteFacts(m: map<string, Item>, h: seq<JValue>)
    requires AllEntries(h)
    ensures SameOutside(m, m[StorageKey := Serialized(JArray(h))])
    ensures ReadHistory(m[StorageKey := Serialized(JArray(h))]) == h
    ensures |h| <= MaxHistoryItems ==> Bounded(m[StorageKey := Serialized(JArray(h))])
  {
    ReadBack(m, h);
  }

  /** What saveCalculation and deleteCalculation leave after a probe and a successful write. */
  lemma ProbeThenWrite(m: map<string, Item>, h: seq<JValue>)
    requires AllEntries(h)
    ensures SameOutside(m, (m - {ProbeKey})[StorageKey := Serialized(JArray(h))])
    ensures ReadHistory((m - {ProbeKey})[StorageKey := Serialized(JArray(h))]) == h
    ensures |h| <= MaxHistoryItems ==> Bounded((m - {ProbeKey})[StorageKey := Serialized(JArray(h))])
  {
    ProbeFacts(m);
    WriteFacts(m - {ProbeKey}, h);
  }

  /** Removing the history key leaves no history and a bounded store. */
  lemma RemoveFacts(m: map<string, Item>)
    ensures SameOutside(m, m - {StorageKey})
    ensures ReadHistory(m - {StorageKey}) == []
    ensures Bounded(m - {StorageKey})
  {
  }

  /** A key-value storage backend that may be unusable, with the history operations on it. */
  class Storage {
    var store: map<string, Item>
    var available: bool

    constructor (initial: map<string, Item>, available: bool)
      ensures store == initial && this.available == available
    {
      store := initial;
      this.available := available;
    }

    /** The history getHistory would return now. */
    function History(): seq<JValue>
      reads this
    {
      if available then ReadHistory(store) else []
    }

    /** The store after a probe: the probe key is gone if the backend answered. */
    function Probed(before: map<string, Item>): map<string, Item>
      reads this
    {
      if available then before - {ProbeKey} else before
    }

    /** isLocalStorageAvailable: write the probe key, remove it, and report whether that worked. */
    method IsAvailable() returns (ok: bool)
      modifies this`store
      ensures ok == available
      ensures store == Probed(old(store))
      ensures History() == old(History())
      ensures Bounded(old(store)) ==> Bounded(store)
      ensures SameOutside(old(store), store)
    {
      ProbeFacts(store);
      if !available {
        return false;
      }
      store := store[ProbeKey := Unparsable(ProbeKey)];
      store := store - {ProbeKey};
      return true;
    }

    /** getHistory */
    method GetHistory() returns (h: seq<JValue>)
      modifies this`store
      ensures h == History() && h == old(History())
      ensures !available ==> h == []
      ensures store == Probed(old(store))
      ensures Bounded(old(store)) ==> Bounded(store)
      ensures SameOutside(old(store), store)
    {
      var ok := IsAvailable();
      if !ok {
        return [];
      }
      if StorageKey !in store {
        return [];
      }
      match store[StorageKey] {
        case Unparsable(_) =>
          // the empty text is falsy; any other such text makes JSON.parse throw
          return [];
        case Serialized(parsed) =>
          if !parsed.JArray? {
            return [];
          }
          h := ValidEntries(parsed.elems);
      }
    }

    /** saveCalculation */
    method SaveCalculation(originalPrice: real, discountPercent: real, finalPrice: real,
                           idClock: nat, stampClock: nat, writeOk: bool)
      modifies this`store
      ensures var written := Recorded(old(History()), NewEntry(originalPrice, discountPercent, finalPrice, idClock, stampClock));
        store == if available && writeOk then Probed(old(store))[StorageKey := Serialized(JArray(written))]
                 else Probed(old(store))
      ensures available && writeOk ==>
        History() == Recorded(old(History()), NewEntry(originalPrice, discountPercent, finalPrice, idClock, stampClock))
      ensures available && writeOk ==> Bounded(store)
      ensures !(available && writeOk) ==> History() == old(History())
      ensures Bounded(old(store)) ==> Bounded(store)
      ensures SameOutside(old(store), store)
    {
      ghost var before := store;
      var ok := IsAvailable();
      if !ok {
        return;
      }
      var history := GetHistory();
      assert store == before - {ProbeKey};
      var entry := NewEntry(originalPrice, discountPercent, finalPrice, idClock, stampClock);
      history := [ToJson(entry)] + history;
      var trimmed := Take(history, MaxHistoryItems);
      if writeOk {
        assert trimmed == Recorded(old(History()), entry);
        ProbeThenWrite(before, trimmed);
        store := store[StorageKey := Serialized(JArray(trimmed))];
      }
    }

    /** clearHistory */
    method ClearHistory(removeOk: bool)
      modifies this`store
      ensures store == if available && removeOk then Probed(old(store)) - {StorageKey} else Probed(old(store))
      ensures available && removeOk ==> StorageKey !in store && History() == []
      ensures !(available && removeOk) ==> History() == old(History())
      ensures Bounded(old(store)) ==> Bounded(store)
      ensures SameOutside(old(store), store)
    {
      var ok := IsAvailable();
      if !ok {
        return;
      }
      if removeOk {
        RemoveFacts(store);
        store := store - {StorageKey};
      }
    }

    /** deleteCalculation */
    method DeleteCalculation(id: string, writeOk: bool)
      modifies this`store
      ensures store == if available && writeOk then Probed(old(store))[StorageKey := Serialized(JArray(WithoutId(old(History()), id)))]
                       else Probed(old(store))
      ensures available && writeOk ==> History() == WithoutId(old(History()), id)
      ensures !(available && writeOk) ==> History() == old(History())
      ensures Bounded(old(store)) ==> Bounded(store)
      ensures SameOutside(old(store), store)
    {
      ghost var before := store;
      var ok := IsAvailable();
      if !ok {
        return;
      }
      var history := GetHistory();
      assert store == before - {ProbeKey};
      var filtered := WithoutId(history, id);
      if writeOk {
        WithoutIdKeepsOthers(history, id);
        if Bounded(before) && StorageKey in before {
          BoundedReadHistory(before);
        }
        ProbeThenWrite(before, filtered);
        store := store[StorageKey := Serialized(JArray(filtered))];
      }
    }
  }
}
