/**
 * Affiliation renumbering and author-list formatting of formatAuthorlist.py.
 *
 * `load_authors` walks the author rows in order; each row's comma-separated
 * affiliation keys are renamed: a digit key gets the next number 1, 2, 3, ...
 * the first time it is seen anywhere and reuses that number afterwards; any
 * other key is kept as it is. `revised_affils` maps each new key to the text
 * of the old one, and each author's keys are written numbers first (sorted),
 * then the other keys in their order. The range compression of the numbers
 * (pynumparser) is a parameter `encode`.
 */
module AuthorList {
  import opened Wrappers
  import opened Text
  import opened OrderedDict

  /** A key of `revised_affils`: a new number (an int in Python) or a kept key (a str). */
  datatype AffKey = Num(n: nat) | Name(s: string)

  /** `str(k)`. */
  function KeyText(k: AffKey): string
  {
    match k
    case Num(n) => NatToString(n)
    case Name(s) => s
  }

  /** `affil_map` (old digit key to new number) and `revised_affils` (new key to affiliation text). */
  datatype Tables = Tables(affilMap: ODict<string, nat>, revised: ODict<AffKey, string>)

  function NoTables(): (tb: Tables)
    ensures tb.affilMap.keys == [] && tb.revised.keys == []
  {
    Tables(Empty(), Empty())
  }

  /** The two empty dicts of lines 35-36 satisfy the renumbering invariant, whatever the affiliations. */
  lemma NoTablesInv(affils: map<string, string>)
    ensures Inv(NoTables(), affils)
    ensures NoTables().affilMap.Size() == 0 && NoTables().revised.Size() == 0
  {
  }

  // ---------------------------------------------------------------------
  // Invariants
  // ---------------------------------------------------------------------

  /** The renumbering: the i-th old key, in order of insertion, is a digit key numbered i + 1. */
  ghost predicate Numbered(m: ODict<string, nat>) {
    && m.Valid()
    && forall i :: 0 <= i < |m.keys| ==> IsDigits(m.keys[i]) && m.keys[i] in m.entries && m.entries[m.keys[i]] == i + 1
  }

  /** `revised_affils[new] == affils[old]` for every renamed key, and nothing else is in it. */
  ghost predicate RevisedAgrees(tb: Tables, affils: map<string, string>) {
    && tb.revised.Valid()
    && (forall k :: k in tb.affilMap.entries ==>
          && k in affils
          && Num(tb.affilMap.entries[k]) in tb.revised.entries
          && tb.revised.entries[Num(tb.affilMap.entries[k])] == affils[k])
    && (forall key :: key in tb.revised.entries ==>
          match key
          case Num(n) => 1 <= n <= |tb.affilMap.keys|
          case Name(s) => !IsDigits(s) && s in affils && tb.revised.entries[key] == affils[s])
  }

  ghost predicate Inv(tb: Tables, affils: map<string, string>) {
    Numbered(tb.affilMap) && RevisedAgrees(tb, affils)
  }

  /** The renumbering is injective and its numbers are exactly 1 .. len(affil_map). */
  lemma NumberingIsBijection(m: ODict<string, nat>)
    requires Numbered(m)
    ensures forall k, k' :: k in m.entries && k' in m.entries && k != k' ==> m.entries[k] != m.entries[k']
    ensures forall k :: k in m.entries ==> 1 <= m.entries[k] <= |m.keys|
    ensures forall n: nat :: 1 <= n <= |m.keys| ==> n in m.entries.Values
  {
    forall k | k in m.entries
      ensures exists i :: 0 <= i < |m.keys| && m.keys[i] == k
    {
      assert k in m.keys;
    }
    forall n: nat | 1 <= n <= |m.keys| ensures n in m.entries.Values {
      assert m.entries[m.keys[n - 1]] == n;
    }
  }

  // ---------------------------------------------------------------------
  // One key (lines 45-57)
  // ---------------------------------------------------------------------

  /**
   * Rename one non-empty key. Raises KeyError (Failure with the key) when a
   * key is not yet renamed and has no affiliation.
   */
  function MapKey(tb: Tables, akey: string, affils: map<string, string>): (r: Result<(Tables, AffKey), string>)
    ensures akey in tb.affilMap.entries ==> r.Success?
    ensures r.Failure? ==> r.error == akey && akey !in affils
    ensures r.Success? ==> (r.value.0.affilMap.keys == tb.affilMap.keys
                            || (r.value.0.affilMap.keys == tb.affilMap.keys + [akey] && IsDigits(akey)))
  {
    if akey in tb.affilMap.entries then Success((tb, Num(tb.affilMap.entries[akey])))
    else
      var newKey := if IsDigits(akey) then Num(tb.affilMap.Size() + 1) else Name(akey);
      var affilMap := if IsDigits(akey) then tb.affilMap.Put(akey, tb.affilMap.Size() + 1) else tb.affilMap;
      if akey !in affils then Failure(akey)
      else Success((Tables(affilMap, tb.revised.Put(newKey, affils[akey])), newKey))
  }

  /** A digit key seen before reuses its number, and neither table changes. */
  lemma RepeatedKeyReusesNumber(tb: Tables, akey: string, affils: map<string, string>)
    requires akey in tb.affilMap.entries
    ensures MapKey(tb, akey, affils) == Success((tb, Num(tb.affilMap.entries[akey])))
  {
  }

  /** A digit key seen for the first time gets len(affil_map) + 1 and is appended to affil_map. */
  lemma NewDigitKeyGetsNextNumber(tb: Tables, akey: string, affils: map<string, string>)
    requires Inv(tb, affils) && akey !in tb.affilMap.entries && IsDigits(akey) && akey in affils
    ensures var r := MapKey(tb, akey, affils);
            && r.Success?
            && r.value.1 == Num(|tb.affilMap.keys| + 1)
            && r.value.0.affilMap.keys == tb.affilMap.keys + [akey]
            && Inv(r.value.0, affils)
  {
    MapKeyPreservesInv(tb, akey, affils);
  }

  /** A non-digit key is passed through and never enters affil_map. */
  lemma NonDigitKeyPassesThrough(tb: Tables, akey: string, affils: map<string, string>)
    requires Inv(tb, affils) && !IsDigits(akey) && akey in affils
    ensures var r := MapKey(tb, akey, affils);
            && r.Success? && r.value.1 == Name(akey) && r.value.0.affilMap == tb.affilMap
            && Name(akey) in r.value.0.revised.entries && r.value.0.revised.entries[Name(akey)] == affils[akey]
  {
    assert akey !in tb.affilMap.keys;
  }

  /** Under the invariant, renaming a key fails exactly when the key has no affiliation. */
  lemma MapKeyFailsIffUnknown(tb: Tables, akey: string, affils: map<string, string>)
    requires Inv(tb, affils)
    ensures MapKey(tb, akey, affils).Failure? <==> akey !in affils
    ensures MapKey(tb, akey, affils).Failure? ==> MapKey(tb, akey, affils).error == akey
  {
  }

  lemma MapKeyPreservesInv(tb: Tables, akey: string, affils: map<string, string>)
    requires Inv(tb, affils)
    requires MapKey(tb, akey, affils).Success?
    ensures Inv(MapKey(tb, akey, affils).value.0, affils)
  {
    var r := MapKey(tb, akey, affils).value;
    var m := tb.affilMap;
    if akey !in m.entries && IsDigits(akey) {
      var m' := r.0.affilMap;
      assert m'.keys == m.keys + [akey];
      assert forall i :: 0 <= i < |m.keys| ==> m'.keys[i] == m.keys[i];
      assert Numbered(m');
      assert Num(|m.keys| + 1) !in tb.revised.entries;
    }
  }

  /** Only digit keys are ever renumbered. */
  ghost predicate DigitKeys(m: ODict<string, nat>) {
    forall k :: k in m.entries ==> IsDigits(k)
  }

  lemma InvHasDigitKeys(tb: Tables, affils: map<string, string>)
    requires Inv(tb, affils)
    ensures DigitKeys(tb.affilMap)
  {
    forall k | k in tb.affilMap.entries ensures IsDigits(k) {
      assert k in tb.affilMap.keys;
    }
  }

  /** Renaming one key: numbers only grow, a digit key ends up numbered, and the key returned is its renamed form. */
  lemma MapKeyRenames(tb: Tables, akey: string, affils: map<string, string>)
    requires DigitKeys(tb.affilMap)
    requires MapKey(tb, akey, affils).Success?
    ensures var r := MapKey(tb, akey, affils).value;
            && DigitKeys(r.0.affilMap)
            && Extends(tb.affilMap, r.0.affilMap)
            && (IsDigits(akey) ==> akey in r.0.affilMap.entries)
            && r.1 == Renamed(r.0.affilMap, akey)
  {
  }

  /** An old map is kept inside the new one: numbers once given never change. */
  ghost predicate Extends(m: ODict<string, nat>, m': ODict<string, nat>) {
    forall k :: k in m.entries ==> k in m'.entries && m'.entries[k] == m.entries[k]
  }

  /** The new key for an old key, given the renumbering: digit keys by number, others as they are. */
  function Renamed(m: ODict<string, nat>, akey: string): AffKey
  {
    if IsDigits(akey) && akey in m.entries then Num(m.entries[akey]) else Name(akey)
  }

  // ---------------------------------------------------------------------
  // One author's keys (lines 43-57)
  // ---------------------------------------------------------------------

  /** `for akey in items`, skipping empty items, collecting the new keys after `acc`. */
  function KeysFrom(tb: Tables, acc: seq<AffKey>, items: seq<string>, affils: map<string, string>)
    : (r: Result<(Tables, seq<AffKey>), string>)
    ensures r.Success? ==> |r.value.1| == |acc| + |NonEmpty(items)| && r.value.1[..|acc|] == acc
    ensures r.Failure? ==> r.error in items && r.error != "" && r.error !in affils
    decreases |items|
  {
    if |items| == 0 then Success((tb, acc))
    else if items[0] == "" then KeysFrom(tb, acc, items[1..], affils)
    else match MapKey(tb, items[0], affils)
      case Failure(e) => Failure(e)
      case Success(r) =>
        var rest := KeysFrom(r.0, acc + [r.1], items[1..], affils);
        assert rest.Success? ==> rest.value.1[..|acc|] == (acc + [r.1])[..|acc|];
        rest
  }

  /** Each item renamed with one fixed numbering, position by position. */
  function RenameAll(m: ODict<string, nat>, items: seq<string>): (r: seq<AffKey>)
    ensures |r| == |items|
  {
    if |items| == 0 then [] else [Renamed(m, items[0])] + RenameAll(m, items[1..])
  }

  /** RenameAll renames each item on its own with the one numbering, position by position. */
  lemma {:induction false} RenameAllPointwise(m: ODict<string, nat>, items: seq<string>)
    ensures forall i :: 0 <= i < |items| ==> RenameAll(m, items)[i] == Renamed(m, items[i])
  {
    if |items| > 0 {
      RenameAllPointwise(m, items[1..]);
      assert forall i :: 0 < i < |items| ==> items[i] == items[1..][i - 1];
    }
  }

  /** Every non-empty item is known everywhere. */
  predicate AllKnown(items: seq<string>, affils: map<string, string>) {
    forall i :: 0 <= i < |items| && items[i] != "" ==> items[i] in affils
  }

  /** On success the invariant holds. */
  lemma {:induction false} KeysFromKeepsInv(tb: Tables, acc: seq<AffKey>, items: seq<string>, affils: map<string, string>)
    requires Inv(tb, affils)
    requires KeysFrom(tb, acc, items, affils).Success?
    ensures Inv(KeysFrom(tb, acc, items, affils).value.0, affils)
    decreases |items|
  {
    if |items| > 0 {
      if items[0] == "" {
        KeysFromKeepsInv(tb, acc, items[1..], affils);
      } else {
        var s := MapKey(tb, items[0], affils).value;
        MapKeyPreservesInv(tb, items[0], affils);
        KeysFromKeepsInv(s.0, acc + [s.1], items[1..], affils);
      }
    }
  }

  /** On success numbers only grow and every digit item has been numbered. */
  lemma {:induction false} KeysFromNumbersDigits(tb: Tables, acc: seq<AffKey>, items: seq<string>, affils: map<string, string>)
    requires DigitKeys(tb.affilMap)
    requires KeysFrom(tb, acc, items, affils).Success?
    ensures var r := KeysFrom(tb, acc, items, affils).value;
            && DigitKeys(r.0.affilMap)
            && Extends(tb.affilMap, r.0.affilMap)
            && (forall i :: 0 <= i < |items| && IsDigits(items[i]) ==> items[i] in r.0.affilMap.entries)
    decreases |items|
  {
    if |items| > 0 {
      assert forall i :: 0 < i < |items| ==> items[i] == items[1..][i - 1];
      if items[0] == "" {
        KeysFromNumbersDigits(tb, acc, items[1..], affils);
      } else {
        var s := MapKey(tb, items[0], affils).value;
        MapKeyRenames(tb, items[0], affils);
        KeysFromNumbersDigits(s.0, acc + [s.1], items[1..], affils);
      }
    }
  }

  /**
   * On success, the author's new keys are the non-empty items in order, each
   * renamed with the final renumbering (empty items from ",," or a trailing
   * comma are skipped).
   */
  lemma {:induction false} KeysFromRenames(tb: Tables, acc: seq<AffKey>, items: seq<string>, affils: map<string, string>)
    requires DigitKeys(tb.affilMap)
    requires KeysFrom(tb, acc, items, affils).Success?
    ensures var r := KeysFrom(tb, acc, items, affils).value;
            r.1 == acc + RenameAll(r.0.affilMap, NonEmpty(items))
    decreases |items|, 1
  {
    if |items| > 0 {
      if items[0] == "" {
        KeysFromRenames(tb, acc, items[1..], affils);
        assert NonEmpty(items) == NonEmpty(items[1..]);
      } else {
        KeysFromRenamesCons(tb, acc, items, affils);
      }
    }
  }

  /** KeysFromRenames for a non-empty first item. */
  lemma {:induction false} KeysFromRenamesCons(tb: Tables, acc: seq<AffKey>, items: seq<string>, affils: map<string, string>)
    requires DigitKeys(tb.affilMap)
    requires |items| > 0 && items[0] != ""
    requires KeysFrom(tb, acc, items, affils).Success?
    ensures var r := KeysFrom(tb, acc, items, affils).value;
            r.1 == acc + RenameAll(r.0.affilMap, NonEmpty(items))
    decreases |items|, 0
  {
    var r := KeysFrom(tb, acc, items, affils).value;
    var s := MapKey(tb, items[0], affils).value;
    KeysFromUnfold(tb, acc, items, affils);
    MapKeyRenames(tb, items[0], affils);
    KeysFromNumbersDigits(s.0, acc + [s.1], items[1..], affils);
    KeysFromRenames(s.0, acc + [s.1], items[1..], affils);
    assert NonEmpty(items) == [items[0]] + NonEmpty(items[1..]);
    RenamesStep(acc, s.1, s.0.affilMap, r.0.affilMap, items[0], NonEmpty(items[1..]), r.1);
  }

  /** KeysFrom on a non-empty first item that renames without error. */
  lemma KeysFromUnfold(tb: Tables, acc: seq<AffKey>, items: seq<string>, affils: map<string, string>)
    requires |items| > 0 && items[0] != ""
    requires MapKey(tb, items[0], affils).Success?
    ensures var s := MapKey(tb, items[0], affils).value;
            KeysFrom(tb, acc, items, affils) == KeysFrom(s.0, acc + [s.1], items[1..], affils)
  {
  }

  /** The list step of KeysFromRenamesCons: a key renamed early is renamed the same by the final numbering. */
  lemma RenamesStep(acc: seq<AffKey>, x: AffKey, m0: ODict<string, nat>, m: ODict<string, nat>,
                    first: string, rest: seq<string>, keys: seq<AffKey>)
    requires x == Renamed(m0, first) && Extends(m0, m) && (IsDigits(first) ==> first in m0.entries)
    requires keys == acc + [x] + RenameAll(m, rest)
    ensures keys == acc + RenameAll(m, [first] + rest)
  {
    assert Renamed(m, first) == x by {
      if IsDigits(first) {
        assert m.entries[first] == m0.entries[first];
      }
    }
    assert ([first] + rest)[0] == first && ([first] + rest)[1..] == rest;
    var tail := RenameAll(m, rest);
    assert RenameAll(m, [first] + rest) == [x] + tail;
    assert acc + [x] + tail == acc + ([x] + tail);
  }

  /** Under the invariant, an author's keys fail to map exactly when some non-empty item has no affiliation. */
  lemma {:induction false} KeysFromSucceedsIff(tb: Tables, acc: seq<AffKey>, items: seq<string>, affils: map<string, string>)
    requires Inv(tb, affils)
    ensures KeysFrom(tb, acc, items, affils).Success? <==> AllKnown(items, affils)
    decreases |items|
  {
    if |items| > 0 {
      assert AllKnown(items, affils) <==> (items[0] != "" ==> items[0] in affils) && AllKnown(items[1..], affils) by {
        if AllKnown(items[1..], affils) && (items[0] != "" ==> items[0] in affils) {
          forall i | 0 <= i < |items| && items[i] != "" ensures items[i] in affils {
            if i > 0 { assert items[i] == items[1..][i - 1]; }
          }
        }
      }
      if items[0] == "" {
        KeysFromSucceedsIff(tb, acc, items[1..], affils);
      } else {
        MapKeyFailsIffUnknown(tb, items[0], affils);
        if MapKey(tb, items[0], affils).Success? {
          var s := MapKey(tb, items[0], affils).value;
          MapKeyPreservesInv(tb, items[0], affils);
          KeysFromSucceedsIff(s.0, acc + [s.1], items[1..], affils);
        }
      }
    }
  }

  /** Digit items in order of first appearance, after those already in `seen`. */
  function DigitsFrom(seen: seq<string>, items: seq<string>): seq<string>
    decreases |items|
  {
    if |items| == 0 then seen
    else if IsDigits(items[0]) && items[0] !in seen then DigitsFrom(seen + [items[0]], items[1..])
    else DigitsFrom(seen, items[1..])
  }

  /** affil_map's keys, in insertion order, are the digit items in order of first appearance. */
  lemma {:induction false} KeysFromOrder(tb: Tables, acc: seq<AffKey>, items: seq<string>, affils: map<string, string>)
    requires Inv(tb, affils)
    requires KeysFrom(tb, acc, items, affils).Success?
    ensures KeysFrom(tb, acc, items, affils).value.0.affilMap.keys == DigitsFrom(tb.affilMap.keys, items)
    decreases |items|
  {
    if |items| > 0 {
      if items[0] == "" {
        KeysFromOrder(tb, acc, items[1..], affils);
      } else {
        var s := MapKey(tb, items[0], affils).value;
        MapKeyPreservesInv(tb, items[0], affils);
        KeysFromOrder(s.0, acc + [s.1], items[1..], affils);
        assert items[0] in tb.affilMap.entries <==> items[0] in tb.affilMap.keys;
      }
    }
  }

  /** Renaming one key adds the key itself to revised_affils when it is not a digit key, and no other kept key. */
  lemma MapKeyNames(tb: Tables, akey: string, affils: map<string, string>)
    requires DigitKeys(tb.affilMap)
    requires MapKey(tb, akey, affils).Success?
    ensures forall s :: Name(s) in MapKey(tb, akey, affils).value.0.revised.entries
                <==> Name(s) in tb.revised.entries || (s == akey && !IsDigits(akey))
  {
  }

  /** The kept keys in revised_affils after one author: those before, and the author's non-empty non-digit items. */
  lemma {:induction false} KeysFromNames(tb: Tables, acc: seq<AffKey>, items: seq<string>, affils: map<string, string>)
    requires DigitKeys(tb.affilMap)
    requires KeysFrom(tb, acc, items, affils).Success?
    ensures forall s :: Name(s) in KeysFrom(tb, acc, items, affils).value.0.revised.entries
                <==> Name(s) in tb.revised.entries || (s in items && s != "" && !IsDigits(s))
    decreases |items|
  {
    if |items| > 0 {
      assert items == [items[0]] + items[1..];
      if items[0] == "" {
        KeysFromNames(tb, acc, items[1..], affils);
      } else {
        var s := MapKey(tb, items[0], affils).value;
        MapKeyNames(tb, items[0], affils);
        MapKeyRenames(tb, items[0], affils);
        KeysFromNames(s.0, acc + [s.1], items[1..], affils);
      }
    }
  }

  // ---------------------------------------------------------------------
  // Formatting one author's keys (lines 59-62)
  // ---------------------------------------------------------------------

  predicate SortedAsc(s: seq<nat>) {
    forall i, j :: 0 <= i < j < |s| ==> s[i] <= s[j]
  }

  function Insert(x: nat, s: seq<nat>): (r: seq<nat>)
    requires SortedAsc(s)
    ensures SortedAsc(r) && multiset(r) == multiset(s) + multiset{x}
    ensures |r| == |s| + 1 && (r[0] == x || (|s| > 0 && r[0] == s[0]))
  {
    if |s| == 0 then [x]
    else if x <= s[0] then [x] + s
    else
      var rest := Insert(x, s[1..]);
      assert s == [s[0]] + s[1..];
      SortedCons(s[0], rest);
      [s[0]] + rest
  }

  /** A number no larger than a sorted list's head can go in front of it. */
  lemma SortedCons(x: nat, s: seq<nat>)
    requires SortedAsc(s) && (|s| > 0 ==> x <= s[0])
    ensures SortedAsc([x] + s)
  {
    assert forall k :: 0 < k < |s| + 1 ==> ([x] + s)[k] == s[k - 1];
  }

  /** `sorted(nums)`: ascending, and the same numbers with the same multiplicities. */
  function SortAsc(s: seq<nat>): (r: seq<nat>)
    ensures SortedAsc(r) && multiset(r) == multiset(s)
  {
    if |s| == 0 then []
    else
      assert s == [s[0]] + s[1..];
      Insert(s[0], SortAsc(s[1..]))
  }

  /** `[int(k) for k in new_akeys if str(k).isdigit()]`. */
  function NumKeys(ks: seq<AffKey>): seq<nat>
  {
    if |ks| == 0 then []
    else (if IsDigits(KeyText(ks[0])) then [ParseNat(KeyText(ks[0]))] else []) + NumKeys(ks[1..])
  }

  /** `[str(k) for k in new_akeys if not str(k).isdigit()]`. */
  function NameKeys(ks: seq<AffKey>): seq<string>
  {
    if |ks| == 0 then []
    else (if !IsDigits(KeyText(ks[0])) then [KeyText(ks[0])] else []) + NameKeys(ks[1..])
  }

  /** Keys not made of digits, in order. */
  function NonDigits(items: seq<string>): seq<string>
  {
    if |items| == 0 then [] else (if IsDigits(items[0]) then [] else [items[0]]) + NonDigits(items[1..])
  }

  /** Numbers of the digit items, in order. */
  function NumbersOf(m: ODict<string, nat>, items: seq<string>): seq<nat>
    requires forall i :: 0 <= i < |items| && IsDigits(items[i]) ==> items[i] in m.entries
  {
    if |items| == 0 then []
    else (if IsDigits(items[0]) then [m.entries[items[0]]] else []) + NumbersOf(m, items[1..])
  }

  /** The value stored for an author: the encoded sorted numbers, then the kept keys, joined by ','. */
  function AffilString(ks: seq<AffKey>, encode: seq<nat> -> string): (r: string)
    ensures encode(SortAsc(NumKeys(ks))) <= r
    ensures NameKeys(ks) == [] ==> r == encode(SortAsc(NumKeys(ks)))
  {
    JoinStartsWithFirst([encode(SortAsc(NumKeys(ks)))] + NameKeys(ks), ",");
    Join([encode(SortAsc(NumKeys(ks)))] + NameKeys(ks), ",")
  }

  /**
   * For renamed keys, the numeric part is the numbers of the digit items (the
   * sorted list is a sorted permutation of them) and the rest is the
   * non-digit items unchanged and in order.
   */
  lemma {:induction false} SplitRenamedKeys(m: ODict<string, nat>, items: seq<string>)
    requires forall i :: 0 <= i < |items| && IsDigits(items[i]) ==> items[i] in m.entries
    ensures NumKeys(RenameAll(m, items)) == NumbersOf(m, items)
    ensures NameKeys(RenameAll(m, items)) == NonDigits(items)
    ensures SortedAsc(SortAsc(NumKeys(RenameAll(m, items))))
    ensures multiset(SortAsc(NumKeys(RenameAll(m, items)))) == multiset(NumbersOf(m, items))
  {
    if |items| > 0 {
      SplitRenamedKeys(m, items[1..]);
      if IsDigits(items[0]) {
        NumberTextIsDigits(m.entries[items[0]]);
        ParseNatToString(m.entries[items[0]]);
      }
    }
  }

  /**
   * The string stored for an author: the encoded numbers of its digit keys,
   * sorted ascending (SortAsc is a sorted permutation), then its other
   * non-empty keys unchanged and in their order.
   */
  lemma AuthorAffilString(tb: Tables, items: seq<string>, affils: map<string, string>, encode: seq<nat> -> string)
    requires DigitKeys(tb.affilMap)
    requires KeysFrom(tb, [], items, affils).Success?
    ensures var r := KeysFrom(tb, [], items, affils).value;
            var ne := NonEmpty(items);
            && (forall i :: 0 <= i < |ne| && IsDigits(ne[i]) ==> ne[i] in r.0.affilMap.entries)
            && AffilString(r.1, encode) == Join([encode(SortAsc(NumbersOf(r.0.affilMap, ne)))] + NonDigits(ne), ",")
  {
    var r := KeysFrom(tb, [], items, affils).value;
    KeysFromNumbersDigits(tb, [], items, affils);
    KeysFromRenames(tb, [], items, affils);
    var ne := NonEmpty(items);
    NonEmptyIn(items);
    assert forall i :: 0 <= i < |ne| && IsDigits(ne[i]) ==> ne[i] in r.0.affilMap.entries by {
      forall i | 0 <= i < |ne| && IsDigits(ne[i]) ensures ne[i] in r.0.affilMap.entries {
        assert ne[i] in items;
      }
    }
    SplitRenamedKeys(r.0.affilMap, ne);
    assert [] + RenameAll(r.0.affilMap, ne) == RenameAll(r.0.affilMap, ne);
  }

  lemma NumberTextIsDigits(n: nat)
    ensures IsDigits(KeyText(Num(n)))
  {
  }

  // ---------------------------------------------------------------------
  // All authors (lines 34-64)
  // ---------------------------------------------------------------------

  /** `for author, akeys_raw in rows`: the tables and the `authors` dict after the remaining rows. */
  function LoadFrom(tb: Tables, authors: ODict<string, string>, rows: seq<(string, string)>,
                    affils: map<string, string>, encode: seq<nat> -> string): (r: Result<(Tables, ODict<string, string>), string>)
    ensures r.Success? && authors.Valid() ==> r.value.1.Valid()
    ensures r.Success? ==> forall a :: a in authors.entries ==> a in r.value.1.entries
    ensures r.Success? ==> forall i :: 0 <= i < |rows| ==> rows[i].0 in r.value.1.entries
    ensures r.Success? ==> r.value.1.entries.Keys == authors.entries.Keys + AuthorsOf(rows)
    ensures r.Failure? ==> r.error !in affils
    decreases |rows|
  {
    if |rows| == 0 then Success((tb, authors))
    else match KeysFrom(tb, [], Split(rows[0].1, ','), affils)
      case Failure(e) => Failure(e)
      case Success(r) =>
        var authors1 := authors.Put(rows[0].0, AffilString(r.1, encode));
        AuthorsOfCons(rows);
        assert authors1.entries.Keys == authors.entries.Keys + {rows[0].0};
        LoadFrom(r.0, authors1, rows[1..], affils, encode)
  }

  /** The authors named by some row. */
  function AuthorsOf(rows: seq<(string, string)>): set<string>
  {
    set i | 0 <= i < |rows| :: rows[i].0
  }

  lemma AuthorsOfCons(rows: seq<(string, string)>)
    requires |rows| > 0
    ensures AuthorsOf(rows) == {rows[0].0} + AuthorsOf(rows[1..])
  {
    assert forall i :: 0 < i < |rows| ==> rows[i] == rows[1..][i - 1];
    assert forall i :: 0 <= i < |rows| - 1 ==> rows[1..][i] == rows[i + 1];
  }

  /** What `load_authors` returns: (authors, revised_affils), or the KeyError of the first unknown key. */
  function LoadAuthorsSpec(rows: seq<(string, string)>, affils: map<string, string>, encode: seq<nat> -> string)
    : (r: Result<(ODict<string, string>, ODict<AffKey, string>), string>)
    ensures r.Success? ==> r.value.0.Valid() && forall i :: 0 <= i < |rows| ==> rows[i].0 in r.value.0.entries
    ensures r.Success? ==> forall a :: a in r.value.0.entries <==> exists i :: 0 <= i < |rows| && rows[i].0 == a
    ensures r.Failure? ==> r.error !in affils
  {
    match LoadFrom(NoTables(), Empty(), rows, affils, encode)
    case Failure(e) => Failure(e)
    case Success(r) => Success((r.1, r.0.revised))
  }

  predicate AllRowsKnown(rows: seq<(string, string)>, affils: map<string, string>) {
    forall r :: 0 <= r < |rows| ==> AllKnown(Split(rows[r].1, ','), affils)
  }

  /** Digit items of all rows, in order of first appearance. */
  function FirstAppearances(seen: seq<string>, rows: seq<(string, string)>): seq<string>
    decreases |rows|
  {
    if |rows| == 0 then seen else FirstAppearances(DigitsFrom(seen, Split(rows[0].1, ',')), rows[1..])
  }

  /**
   * The whole pass: it fails exactly when some non-empty key has no
   * affiliation; on success the invariant holds, and affil_map's keys are the
   * digit keys of all rows in order of first appearance.
   */
  lemma {:induction false} LoadFromFacts(tb: Tables, authors: ODict<string, string>, rows: seq<(string, string)>,
                                          affils: map<string, string>, encode: seq<nat> -> string)
    requires Inv(tb, affils)
    ensures LoadFrom(tb, authors, rows, affils, encode).Success? <==> AllRowsKnown(rows, affils)
    ensures LoadFrom(tb, authors, rows, affils, encode).Success? ==>
              var r := LoadFrom(tb, authors, rows, affils, encode).value;
              && Inv(r.0, affils)
              && r.0.affilMap.keys == FirstAppearances(tb.affilMap.keys, rows)
    decreases |rows|
  {
    if |rows| > 0 {
      var items := Split(rows[0].1, ',');
      KeysFromSucceedsIff(tb, [], items, affils);
      assert AllRowsKnown(rows, affils) <==> AllKnown(items, affils) && AllRowsKnown(rows[1..], affils) by {
        if AllKnown(items, affils) && AllRowsKnown(rows[1..], affils) {
          forall r | 0 <= r < |rows| ensures AllKnown(Split(rows[r].1, ','), affils) {
            if r > 0 { assert rows[r] == rows[1..][r - 1]; }
          }
        }
      }
      if KeysFrom(tb, [], items, affils).Success? {
        var k := KeysFrom(tb, [], items, affils).value;
        KeysFromKeepsInv(tb, [], items, affils);
        KeysFromOrder(tb, [], items, affils);
        LoadFromFacts(k.0, authors.Put(rows[0].0, AffilString(k.1, encode)), rows[1..], affils, encode);
      }
    }
  }

  /**
   * `load_authors` succeeds exactly when every non-empty key has an
   * affiliation, and then new numbers 1, 2, 3, ... go to the digit keys in
   * order of first appearance, and `revised_affils` agrees with `affils`.
   */
  lemma LoadAuthorsRenumbering(rows: seq<(string, string)>, affils: map<string, string>, encode: seq<nat> -> string)
    ensures LoadFrom(NoTables(), Empty(), rows, affils, encode).Success? <==> AllRowsKnown(rows, affils)
    ensures LoadFrom(NoTables(), Empty(), rows, affils, encode).Success? ==>
              var tb := LoadFrom(NoTables(), Empty(), rows, affils, encode).value.0;
              var order := FirstAppearances([], rows);
              && tb.affilMap.keys == order
              && (forall i :: 0 <= i < |order| ==> order[i] in tb.affilMap.entries && tb.affilMap.entries[order[i]] == i + 1)
              && (forall k :: k in tb.affilMap.entries ==>
                    k in affils && Num(tb.affilMap.entries[k]) in tb.revised.entries
                    && tb.revised.entries[Num(tb.affilMap.entries[k])] == affils[k])
              && (forall s :: Name(s) in tb.revised.entries ==>
                    !IsDigits(s) && s in affils && tb.revised.entries[Name(s)] == affils[s])
              && (forall n: nat :: Num(n) in tb.revised.entries <==> 1 <= n <= |order|)
              && (forall i, k :: 0 <= i < |rows| && k in Split(rows[i].1, ',') && k != "" && !IsDigits(k) ==>
                    Name(k) in tb.revised.entries && tb.revised.entries[Name(k)] == affils[k])
              && (forall s :: Name(s) in tb.revised.entries ==> exists i :: 0 <= i < |rows| && s in Split(rows[i].1, ','))
  {
    var tb0 := NoTables();
    assert Inv(tb0, affils);
    LoadFromFacts(tb0, Empty(), rows, affils, encode);
    if LoadFrom(tb0, Empty(), rows, affils, encode).Success? {
      var tb := LoadFrom(tb0, Empty(), rows, affils, encode).value.0;
      RevisedNumbers(tb, affils);
      RevisedNames(rows, affils, encode);
    }
  }

  /** Under the invariant, the numbers in revised_affils are exactly 1 .. len(affil_map). */
  lemma RevisedNumbers(tb: Tables, affils: map<string, string>)
    requires Inv(tb, affils)
    ensures forall n: nat :: Num(n) in tb.revised.entries <==> 1 <= n <= |tb.affilMap.keys|
  {
    forall n: nat | 1 <= n <= |tb.affilMap.keys| ensures Num(n) in tb.revised.entries {
      var k := tb.affilMap.keys[n - 1];
      assert k in tb.affilMap.entries && tb.affilMap.entries[k] == n;
    }
  }

  /** The kept keys of revised_affils are exactly the non-empty non-digit keys of the rows. */
  lemma RevisedNames(rows: seq<(string, string)>, affils: map<string, string>, encode: seq<nat> -> string)
    requires LoadFrom(NoTables(), Empty(), rows, affils, encode).Success?
    ensures var tb := LoadFrom(NoTables(), Empty(), rows, affils, encode).value.0;
            && (forall i, k :: 0 <= i < |rows| && k in Split(rows[i].1, ',') && k != "" && !IsDigits(k) ==>
                  Name(k) in tb.revised.entries)
            && (forall s :: Name(s) in tb.revised.entries ==> exists i :: 0 <= i < |rows| && s in Split(rows[i].1, ','))
  {
    LoadFromNames(NoTables(), Empty(), rows, affils, encode);
    forall i, k | 0 <= i < |rows| && k in Split(rows[i].1, ',') ensures k in RowKeys(rows) {
      RowKeysMember(rows, k);
    }
    forall s | s in RowKeys(rows) ensures exists i :: 0 <= i < |rows| && s in Split(rows[i].1, ',') {
      RowKeysMember(rows, s);
    }
  }

  /** All keys of all rows, row after row. */
  function RowKeys(rows: seq<(string, string)>): seq<string>
  {
    if |rows| == 0 then [] else Split(rows[0].1, ',') + RowKeys(rows[1..])
  }

  lemma {:induction false} RowKeysMember(rows: seq<(string, string)>, s: string)
    ensures s in RowKeys(rows) <==> exists i :: 0 <= i < |rows| && s in Split(rows[i].1, ',')
  {
    if |rows| > 0 {
      RowKeysMember(rows[1..], s);
      if s in RowKeys(rows) && s !in Split(rows[0].1, ',') {
        var i :| 0 <= i < |rows| - 1 && s in Split(rows[1..][i].1, ',');
        assert rows[1..][i] == rows[i + 1];
      }
      if exists i :: 0 <= i < |rows| && s in Split(rows[i].1, ',') {
        var i :| 0 <= i < |rows| && s in Split(rows[i].1, ',');
        if i > 0 {
          assert rows[i] == rows[1..][i - 1];
        }
      }
    }
  }

  /** The kept keys of revised_affils after the remaining rows: those before, and the rows' non-empty non-digit keys. */
  lemma {:induction false} LoadFromNames(tb: Tables, authors: ODict<string, string>, rows: seq<(string, string)>,
                                         affils: map<string, string>, encode: seq<nat> -> string)
    requires DigitKeys(tb.affilMap)
    requires LoadFrom(tb, authors, rows, affils, encode).Success?
    ensures forall s :: Name(s) in LoadFrom(tb, authors, rows, affils, encode).value.0.revised.entries
               <==> Name(s) in tb.revised.entries || (s in RowKeys(rows) && s != "" && !IsDigits(s))
    decreases |rows|
  {
    if |rows| > 0 {
      var items := Split(rows[0].1, ',');
      var k := KeysFrom(tb, [], items, affils).value;
      KeysFromNames(tb, [], items, affils);
      KeysFromNumbersDigits(tb, [], items, affils);
      LoadFromNames(k.0, authors.Put(rows[0].0, AffilString(k.1, encode)), rows[1..], affils, encode);
    }
  }

  /** Over the remaining rows numbers once given never change. */
  lemma {:induction false} LoadFromExtends(tb: Tables, authors: ODict<string, string>, rows: seq<(string, string)>,
                                           affils: map<string, string>, encode: seq<nat> -> string)
    requires DigitKeys(tb.affilMap)
    requires LoadFrom(tb, authors, rows, affils, encode).Success?
    ensures var r := LoadFrom(tb, authors, rows, affils, encode).value;
            DigitKeys(r.0.affilMap) && Extends(tb.affilMap, r.0.affilMap)
    decreases |rows|
  {
    if |rows| > 0 {
      var items := Split(rows[0].1, ',');
      var k := KeysFrom(tb, [], items, affils).value;
      KeysFromNumbersDigits(tb, [], items, affils);
      LoadFromExtends(k.0, authors.Put(rows[0].0, AffilString(k.1, encode)), rows[1..], affils, encode);
    }
  }

  /** An author named by no remaining row keeps its value. */
  lemma {:induction false} LoadFromKeepsOthers(tb: Tables, authors: ODict<string, string>, rows: seq<(string, string)>,
                                               affils: map<string, string>, encode: seq<nat> -> string, a: string)
    requires LoadFrom(tb, authors, rows, affils, encode).Success?
    requires a in authors.entries && a !in AuthorsOf(rows)
    ensures LoadFrom(tb, authors, rows, affils, encode).value.1.entries[a] == authors.entries[a]
    decreases |rows|
  {
    if |rows| > 0 {
      var k := KeysFrom(tb, [], Split(rows[0].1, ','), affils).value;
      assert a != rows[0].0;
      assert a !in AuthorsOf(rows[1..]) by {
        assert forall i :: 0 <= i < |rows| - 1 ==> rows[1..][i] == rows[i + 1];
      }
      LoadFromKeepsOthers(k.0, authors.Put(rows[0].0, AffilString(k.1, encode)), rows[1..], affils, encode, a);
    }
  }

  /** Renaming with a larger numbering changes nothing once every digit item is numbered. */
  lemma {:induction false} RenameAllExtends(m: ODict<string, nat>, m': ODict<string, nat>, items: seq<string>)
    requires Extends(m, m')
    requires forall i :: 0 <= i < |items| && IsDigits(items[i]) ==> items[i] in m.entries
    ensures RenameAll(m', items) == RenameAll(m, items)
  {
    if |items| > 0 {
      assert forall i :: 0 < i < |items| ==> items[i] == items[1..][i - 1];
      RenameAllExtends(m, m', items[1..]);
    }
  }

  /** Row i is the last row naming its author. */
  predicate LastRowOf(rows: seq<(string, string)>, i: int) {
    0 <= i < |rows| && forall j :: i < j < |rows| ==> rows[j].0 != rows[i].0
  }

  /**
   * Line 62 overwrites: after the remaining rows, the value of an author is
   * made from the keys of the last row naming it, renamed with the final
   * numbering.
   */
  lemma {:induction false} LoadFromLastRow(tb: Tables, authors: ODict<string, string>, rows: seq<(string, string)>,
                                           affils: map<string, string>, encode: seq<nat> -> string)
    requires DigitKeys(tb.affilMap)
    requires LoadFrom(tb, authors, rows, affils, encode).Success?
    ensures var r := LoadFrom(tb, authors, rows, affils, encode).value;
            forall i :: LastRowOf(rows, i) ==>
              r.1.entries[rows[i].0] == AffilString(RenameAll(r.0.affilMap, NonEmpty(Split(rows[i].1, ','))), encode)
    decreases |rows|
  {
    if |rows| > 0 {
      var items := Split(rows[0].1, ',');
      var k := KeysFrom(tb, [], items, affils).value;
      var authors1 := authors.Put(rows[0].0, AffilString(k.1, encode));
      var r := LoadFrom(tb, authors, rows, affils, encode).value;
      KeysFromNumbersDigits(tb, [], items, affils);
      LoadFromLastRow(k.0, authors1, rows[1..], affils, encode);
      forall i | LastRowOf(rows, i)
        ensures r.1.entries[rows[i].0] == AffilString(RenameAll(r.0.affilMap, NonEmpty(Split(rows[i].1, ','))), encode)
      {
        if i > 0 {
          assert rows[i] == rows[1..][i - 1];
          assert forall j :: i - 1 < j < |rows| - 1 ==> rows[1..][j] == rows[j + 1];
          assert LastRowOf(rows[1..], i - 1);
        } else {
          LoadFromFirstRow(tb, authors, rows, affils, encode);
        }
      }
    }
  }

  /** LoadFromLastRow for the first row, when no later row names its author. */
  lemma LoadFromFirstRow(tb: Tables, authors: ODict<string, string>, rows: seq<(string, string)>,
                         affils: map<string, string>, encode: seq<nat> -> string)
    requires DigitKeys(tb.affilMap)
    requires LoadFrom(tb, authors, rows, affils, encode).Success?
    requires LastRowOf(rows, 0)
    ensures var r := LoadFrom(tb, authors, rows, affils, encode).value;
            r.1.entries[rows[0].0] == AffilString(RenameAll(r.0.affilMap, NonEmpty(Split(rows[0].1, ','))), encode)
  {
    var items := Split(rows[0].1, ',');
    var k := KeysFrom(tb, [], items, affils).value;
    var authors1 := authors.Put(rows[0].0, AffilString(k.1, encode));
    var r := LoadFrom(tb, authors, rows, affils, encode).value;
    assert r == LoadFrom(k.0, authors1, rows[1..], affils, encode).value;
    assert rows[0].0 !in AuthorsOf(rows[1..]) by {
      assert forall i :: 0 <= i < |rows| - 1 ==> rows[1..][i] == rows[i + 1];
    }
    LoadFromKeepsOthers(k.0, authors1, rows[1..], affils, encode, rows[0].0);
    KeysFromNumbersDigits(tb, [], items, affils);
    KeysFromRenames(tb, [], items, affils);
    LoadFromExtends(k.0, authors1, rows[1..], affils, encode);
    var ne := NonEmpty(items);
    NonEmptyIn(items);
    assert forall i :: 0 <= i < |ne| && IsDigits(ne[i]) ==> ne[i] in k.0.affilMap.entries by {
      forall i | 0 <= i < |ne| && IsDigits(ne[i]) ensures ne[i] in k.0.affilMap.entries {
        assert ne[i] in items;
      }
    }
    RenameAllExtends(k.0.affilMap, r.0.affilMap, ne);
    assert [] + RenameAll(k.0.affilMap, ne) == RenameAll(k.0.affilMap, ne);
  }

  /**
   * `load_authors`: the value of each author is its last row's keys, the
   * numbers of the digit keys sorted ascending and range-encoded, then the
   * other non-empty keys in their order, joined by ','.
   */
  lemma LoadAuthorsLastRowWins(rows: seq<(string, string)>, affils: map<string, string>, encode: seq<nat> -> string)
    requires LoadAuthorsSpec(rows, affils, encode).Success?
    ensures var m := LoadFrom(NoTables(), Empty(), rows, affils, encode).value.0.affilMap;
            var authors := LoadAuthorsSpec(rows, affils, encode).value.0;
            forall i :: LastRowOf(rows, i) ==>
              var ne := NonEmpty(Split(rows[i].1, ','));
              && (forall j :: 0 <= j < |ne| && IsDigits(ne[j]) ==> ne[j] in m.entries)
              && authors.entries[rows[i].0] == Join([encode(SortAsc(NumbersOf(m, ne)))] + NonDigits(ne), ",")
  {
    var m := LoadFrom(NoTables(), Empty(), rows, affils, encode).value.0.affilMap;
    LoadFromLastRow(NoTables(), Empty(), rows, affils, encode);
    LoadFromNumbersAll(NoTables(), Empty(), rows, affils, encode);
    forall i | LastRowOf(rows, i)
      ensures var ne := NonEmpty(Split(rows[i].1, ','));
              && (forall j :: 0 <= j < |ne| && IsDigits(ne[j]) ==> ne[j] in m.entries)
              && AffilString(RenameAll(m, ne), encode) == Join([encode(SortAsc(NumbersOf(m, ne)))] + NonDigits(ne), ",")
    {
      var items := Split(rows[i].1, ',');
      var ne := NonEmpty(items);
      NonEmptyIn(items);
      forall j | 0 <= j < |ne| && IsDigits(ne[j]) ensures ne[j] in m.entries {
        assert ne[j] in items;
      }
      SplitRenamedKeys(m, ne);
    }
  }

  /** After the remaining rows, every digit key of every row is numbered. */
  lemma {:induction false} LoadFromNumbersAll(tb: Tables, authors: ODict<string, string>, rows: seq<(string, string)>,
                                              affils: map<string, string>, encode: seq<nat> -> string)
    requires DigitKeys(tb.affilMap)
    requires LoadFrom(tb, authors, rows, affils, encode).Success?
    ensures var r := LoadFrom(tb, authors, rows, affils, encode).value;
            forall i, x :: 0 <= i < |rows| && x in Split(rows[i].1, ',') && IsDigits(x) ==> x in r.0.affilMap.entries
    decreases |rows|
  {
    if |rows| > 0 {
      var items := Split(rows[0].1, ',');
      var k := KeysFrom(tb, [], items, affils).value;
      var authors1 := authors.Put(rows[0].0, AffilString(k.1, encode));
      var r := LoadFrom(tb, authors, rows, affils, encode).value;
      LoadFromUnfold(tb, authors, rows, affils, encode);
      KeysFromNumbersDigits(tb, [], items, affils);
      LoadFromExtends(k.0, authors1, rows[1..], affils, encode);
      LoadFromNumbersAll(k.0, authors1, rows[1..], affils, encode);
      forall i, x | 0 <= i < |rows| && x in Split(rows[i].1, ',') && IsDigits(x) ensures x in r.0.affilMap.entries {
        if i == 0 {
          var j :| 0 <= j < |items| && items[j] == x;
        } else {
          assert rows[i] == rows[1..][i - 1];
        }
      }
    }
  }

  /** LoadFrom on a first row whose keys all rename. */
  lemma LoadFromUnfold(tb: Tables, authors: ODict<string, string>, rows: seq<(string, string)>,
                       affils: map<string, string>, encode: seq<nat> -> string)
    requires |rows| > 0 && KeysFrom(tb, [], Split(rows[0].1, ','), affils).Success?
    ensures var k := KeysFrom(tb, [], Split(rows[0].1, ','), affils).value;
            LoadFrom(tb, authors, rows, affils, encode)
            == LoadFrom(k.0, authors.Put(rows[0].0, AffilString(k.1, encode)), rows[1..], affils, encode)
  {
  }

  /** One author's keys (lines 43-57), updating affil_map and revised_affils as the source does. */
  method RenameKeys(affilMap0: ODict<string, nat>, revised0: ODict<AffKey, string>, items: seq<string>, affils: map<string, string>)
    returns (r: Result<(Tables, seq<AffKey>), string>)
    ensures r == KeysFrom(Tables(affilMap0, revised0), [], items, affils)
  {
    var affilMap, revised := affilMap0, revised0;
    var newKeys: seq<AffKey> := [];
    var j := 0;
    while j < |items|
      invariant 0 <= j <= |items|
      invariant KeysFrom(Tables(affilMap0, revised0), [], items, affils)
             == KeysFrom(Tables(affilMap, revised), newKeys, items[j..], affils)
    {
      var akey := items[j];
      assert items[j..][0] == akey && items[j..][1..] == items[j + 1..];
      if akey == "" {
        j := j + 1;
        continue;
      }
      if akey in affilMap.entries {
        newKeys := newKeys + [Num(affilMap.entries[akey])];
      } else {
        var newKey: AffKey;
        var nextMap := affilMap;
        if IsDigits(akey) {
          newKey := Num(affilMap.Size() + 1);
          nextMap := affilMap.Put(akey, affilMap.Size() + 1);
        } else {
          newKey := Name(akey);
        }
        if akey !in affils {
          return Failure(akey);
        }
        affilMap := nextMap;
        revised := revised.Put(newKey, affils[akey]);
        newKeys := newKeys + [newKey];
      }
      j := j + 1;
    }
    assert items[j..] == [];
    r := Success((Tables(affilMap, revised), newKeys));
  }

  /** One row of LoadFrom. */
  lemma LoadFromStep(tb: Tables, authors: ODict<string, string>, rows: seq<(string, string)>, i: nat,
                     affils: map<string, string>, encode: seq<nat> -> string)
    requires i < |rows|
    ensures var k := KeysFrom(tb, [], Split(rows[i].1, ','), affils);
            (LoadFrom(tb, authors, rows[i..], affils, encode)
             == if k.Failure? then Failure(k.error)
                else LoadFrom(k.value.0, authors.Put(rows[i].0, AffilString(k.value.1, encode)), rows[i + 1..], affils, encode))
  {
    assert rows[i..][0] == rows[i] && rows[i..][1..] == rows[i + 1..];
  }

  /** `load_authors` as the source runs it: a loop over the rows, updating the dicts in place. */
  method LoadAuthors(rows: seq<(string, string)>, affils: map<string, string>, encode: seq<nat> -> string)
    returns (r: Result<(ODict<string, string>, ODict<AffKey, string>), string>)
    ensures r == LoadAuthorsSpec(rows, affils, encode)
  {
    var authors: ODict<string, string> := Empty();
    var revised: ODict<AffKey, string> := Empty();
    var affilMap: ODict<string, nat> := Empty();
    var i := 0;
    while i < |rows|
      invariant 0 <= i <= |rows|
      invariant LoadFrom(NoTables(), Empty(), rows, affils, encode)
             == LoadFrom(Tables(affilMap, revised), authors, rows[i..], affils, encode)
    {
      var (author, akeysRaw) := rows[i];
      var items := Split(akeysRaw, ',');
      LoadFromStep(Tables(affilMap, revised), authors, rows, i, affils, encode);
      var renamed := RenameKeys(affilMap, revised, items, affils);
      if renamed.Failure? {
        return Failure(renamed.error);
      }
      var newKeys := renamed.value.1;
      affilMap, revised := renamed.value.0.affilMap, renamed.value.0.revised;
      var nums := SortAsc(NumKeys(newKeys));
      var notNums := NameKeys(newKeys);
      authors := authors.Put(author, Join([encode(nums)] + notNums, ","));
      i := i + 1;
    }
    r := Success((authors, revised));
  }

  // ---------------------------------------------------------------------
  // print_authors (lines 67-86)
  // ---------------------------------------------------------------------

  /** One author as printed: the name, then the affiliation string, as a superscript in HTML. */
  function AuthorEntry(name: string, affstr: string, plaintextOut: bool): string
  {
    name + (if plaintextOut then affstr else "<sup>" + affstr + "</sup>")
  }

  function AuthorEntries(items: seq<(string, string)>, plaintextOut: bool): (r: seq<string>)
    ensures |r| == |items|
    ensures forall i :: 0 <= i < |items| ==> r[i] == AuthorEntry(items[i].0, items[i].1, plaintextOut)
  {
    seq(|items|, i requires 0 <= i < |items| => AuthorEntry(items[i].0, items[i].1, plaintextOut))
  }

  /** `end=', '` before the last author, the newline of a plain `print` after it. */
  function EntryEnd(k: nat, n: nat): string
  {
    if k + 1 < n then ", " else "\n"
  }

  /** The first k entries as the loop prints them, each with its end. */
  function Printed(entries: seq<string>, k: nat): string
    requires k <= |entries|
  {
    if k == 0 then "" else Printed(entries, k - 1) + entries[k - 1] + EntryEnd(k - 1, |entries|)
  }

  /** The loop prints the entries separated by ", " with one newline after the last. */
  lemma {:induction false} PrintedIsJoin(entries: seq<string>, k: nat)
    requires 0 < k <= |entries|
    ensures Printed(entries, k) == Join(entries[..k], ", ") + EntryEnd(k - 1, |entries|)
  {
    if k == 1 {
      assert entries[..1] == [entries[0]];
    } else {
      PrintedIsJoin(entries, k - 1);
      JoinSnoc(entries[..k - 1], entries[k - 1], ", ");
      assert entries[..k - 1] + [entries[k - 1]] == entries[..k];
    }
  }

  lemma PrintedAll(entries: seq<string>)
    ensures Printed(entries, |entries|) == if |entries| == 0 then "" else Join(entries, ", ") + "\n"
  {
    if |entries| > 0 {
      PrintedIsJoin(entries, |entries|);
      assert entries[..|entries|] == entries;
    }
  }

  /** The text after the author line: `print('')`, or `print('<br />' * 2)`. */
  function AuthorsTrailer(plaintextOut: bool): string
  {
    if plaintextOut then "\n" else "<br /><br />\n"
  }

  /**
   * What print_authors writes: the authors in dict order separated by ", ",
   * a newline after the last one (no line at all for no authors), then the trailer.
   */
  method PrintAuthors(authors: ODict<string, string>, plaintextOut: bool) returns (out: string)
    requires authors.Valid()
    ensures var entries := AuthorEntries(authors.Items(), plaintextOut);
            out == (if |entries| == 0 then "" else Join(entries, ", ") + "\n") + AuthorsTrailer(plaintextOut)
  {
    var items := authors.Items();
    ghost var entries := AuthorEntries(items, plaintextOut);
    var nAuthors := |items|;
    out := "";
    var k := 0;
    while k < nAuthors
      invariant 0 <= k <= nAuthors
      invariant out == Printed(entries, k)
    {
      var (name, affstr) := items[k];
      k := k + 1;
      out := out + AuthorEntry(name, affstr, plaintextOut) + EntryEnd(k - 1, nAuthors);
    }
    PrintedAll(entries);
    out := out + AuthorsTrailer(plaintextOut);
  }

  // ---------------------------------------------------------------------
  // print_affils (lines 89-106)
  // ---------------------------------------------------------------------

  /** `str(i).isdigit()` for a key of revised_affils. */
  predicate IsNumericKey(k: AffKey) { IsDigits(KeyText(k)) }

  /** The items whose key is numeric (isNum) or not (not isNum), in dict order. */
  function ItemsWhere(items: seq<(AffKey, string)>, isNum: bool): (r: seq<(AffKey, string)>)
    ensures forall i :: 0 <= i < |r| ==> IsNumericKey(r[i].0) == isNum
  {
    if |items| == 0 then []
    else
      var last := items[|items| - 1];
      ItemsWhere(items[..|items| - 1], isNum) + (if IsNumericKey(last.0) == isNum then [last] else [])
  }

  /**
   * One pass keeps the items of its group at their own positions in dict
   * order, and misses none of them.
   */
  lemma {:induction false} ItemsWhereKeepsOrder(items: seq<(AffKey, string)>, isNum: bool) returns (idx: seq<nat>)
    ensures OrderedPick(ItemsWhere(items, isNum), items, idx)
    ensures forall j :: 0 <= j < |items| && IsNumericKey(items[j].0) == isNum ==> j in idx
  {
    if |items| == 0 {
      idx := [];
    } else {
      var n := |items| - 1;
      var init := items[..n];
      var rest := ItemsWhereKeepsOrder(init, isNum);
      var done := ItemsWhere(init, isNum);
      PickWiden(done, items, n, rest);
      if IsNumericKey(items[n].0) == isNum {
        PickAppendLast(done, items, rest);
        idx := rest + [n];
      } else {
        assert done + [] == done;
        idx := rest;
      }
      forall j | 0 <= j < |items| && IsNumericKey(items[j].0) == isNum ensures j in idx {
        if j < n {
          assert init[j] == items[j];
        }
      }
    }
  }

  /** When every item is of one group, that pass lists them all and the other pass none. */
  lemma {:induction false} ItemsWhereAllOneGroup(items: seq<(AffKey, string)>, isNum: bool)
    requires forall i :: 0 <= i < |items| ==> IsNumericKey(items[i].0) == isNum
    ensures ItemsWhere(items, isNum) == items && ItemsWhere(items, !isNum) == []
  {
    if |items| > 0 {
      ItemsWhereAllOneGroup(items[..|items| - 1], isNum);
      assert items[..|items| - 1] + [items[|items| - 1]] == items;
    }
  }

  /** The order in which print_affils lists the items. */
  function AffilOrder(items: seq<(AffKey, string)>, numericFirst: bool): seq<(AffKey, string)>
  {
    if numericFirst then ItemsWhere(items, true) + ItemsWhere(items, false) else items
  }

  /**
   * With numeric_first, every item is listed exactly as often as it occurs,
   * and every numeric key comes before every other key.
   */
  lemma AffilOrderNumericFirst(items: seq<(AffKey, string)>)
    ensures var order := AffilOrder(items, true);
            && multiset(order) == multiset(items)
            && (forall i, j :: 0 <= i < j < |order| && IsNumericKey(order[j].0) ==> IsNumericKey(order[i].0))
  {
    PartitionIsPermutation(items);
    var order := AffilOrder(items, true);
    var nk := ItemsWhere(items, true);
    assert forall j :: |nk| <= j < |order| ==> order[j] == ItemsWhere(items, false)[j - |nk|];
    assert forall i :: 0 <= i < |nk| ==> order[i] == nk[i];
  }

  lemma {:induction false} PartitionIsPermutation(items: seq<(AffKey, string)>)
    ensures multiset(ItemsWhere(items, true)) + multiset(ItemsWhere(items, false)) == multiset(items)
  {
    if |items| > 0 {
      var init, last := items[..|items| - 1], items[|items| - 1];
      PartitionIsPermutation(init);
      assert items == init + [last];
      PartitionSnoc(init, last);
    }
  }

  /** One more item lands in exactly one of the two passes. */
  lemma PartitionSnoc(init: seq<(AffKey, string)>, last: (AffKey, string))
    ensures multiset(ItemsWhere(init + [last], true)) + multiset(ItemsWhere(init + [last], false))
         == multiset(ItemsWhere(init, true)) + multiset(ItemsWhere(init, false)) + multiset{last}
  {
    var items := init + [last];
    assert items[..|items| - 1] == init && items[|items| - 1] == last;
    var isNum := IsNumericKey(last.0);
    var grows, same := ItemsWhere(init, isNum), ItemsWhere(init, !isNum);
    assert ItemsWhere(items, isNum) == grows + [last];
    assert ItemsWhere(items, !isNum) == same + [];
    assert same + [] == same;
    assert multiset(grows + [last]) == multiset(grows) + multiset{last};
  }

  /** One affiliation line: `'. '.join([str(i), aff])` printed with end='\n<br />'. */
  function AffilLine(item: (AffKey, string)): string
  {
    Join([KeyText(item.0), item.1], ". ") + "\n<br />"
  }

  function AffilLines(items: seq<(AffKey, string)>): string
  {
    if |items| == 0 then "" else AffilLines(items[..|items| - 1]) + AffilLine(items[|items| - 1])
  }

  lemma {:induction false} AffilLinesAppend(a: seq<(AffKey, string)>, b: seq<(AffKey, string)>)
    ensures AffilLines(a + b) == AffilLines(a) + AffilLines(b)
    decreases |b|
  {
    if |b| > 0 {
      var b' := b[..|b| - 1];
      AffilLinesAppend(a, b');
      assert (a + b)[..|a + b| - 1] == a + b';
    } else {
      assert a + b == a;
    }
  }

  /** The trailer of print_affils: `print('')`, or `print('<br />')`. */
  function AffilsTrailer(plaintextOut: bool): string
  {
    if plaintextOut then "\n" else "<br />\n"
  }

  /** What print_affils writes: one line per item in AffilOrder, then the trailer. */
  function AffilsText(affils: ODict<AffKey, string>, plaintextOut: bool, numericFirst: bool): string
    requires affils.Valid()
  {
    AffilLines(AffilOrder(affils.Items(), numericFirst)) + AffilsTrailer(plaintextOut)
  }

  /**
   * When every key is numeric, or none is, numeric_first makes no
   * difference: the lines come in dict order.
   */
  lemma AffilsTextOneGroup(affils: ODict<AffKey, string>, plaintextOut: bool, numericFirst: bool)
    requires affils.Valid()
    requires (forall i :: 0 <= i < |affils.keys| ==> IsNumericKey(affils.keys[i]))
          || (forall i :: 0 <= i < |affils.keys| ==> !IsNumericKey(affils.keys[i]))
    ensures AffilsText(affils, plaintextOut, numericFirst) == AffilLines(affils.Items()) + AffilsTrailer(plaintextOut)
  {
    ItemsWhereAllOneGroupIf(affils.Items());
  }

  /** If all the items' keys are numeric, or none is, the two passes list them in dict order. */
  lemma ItemsWhereAllOneGroupIf(items: seq<(AffKey, string)>)
    ensures ((forall i :: 0 <= i < |items| ==> IsNumericKey(items[i].0))
             || (forall i :: 0 <= i < |items| ==> !IsNumericKey(items[i].0)))
            ==> AffilOrder(items, true) == items
  {
    if forall i :: 0 <= i < |items| ==> IsNumericKey(items[i].0) {
      ItemsWhereAllOneGroup(items, true);
      assert items + [] == items;
    } else if forall i :: 0 <= i < |items| ==> !IsNumericKey(items[i].0) {
      ItemsWhereAllOneGroup(items, false);
      assert [] + items == items;
    }
  }

  /** One more item appends its line. */
  lemma AffilLinesSnoc(items: seq<(AffKey, string)>, j: nat)
    requires j < |items|
    ensures AffilLines(items[..j + 1]) == AffilLines(items[..j]) + AffilLine(items[j])
  {
    assert items[..j + 1][..j] == items[..j];
  }

  /** One more item appends its line exactly when it belongs to the group `isNum`. */
  lemma PassSnoc(items: seq<(AffKey, string)>, j: nat, isNum: bool)
    requires j < |items|
    ensures AffilLines(ItemsWhere(items[..j + 1], isNum))
         == AffilLines(ItemsWhere(items[..j], isNum)) + (if IsNumericKey(items[j].0) == isNum then AffilLine(items[j]) else "")
  {
    assert items[..j + 1][..j] == items[..j];
    var done := ItemsWhere(items[..j], isNum);
    if IsNumericKey(items[j].0) == isNum {
      assert (done + [items[j]])[..|done|] == done;
    } else {
      assert done + [] == done;
    }
  }

  /** One pass of print_affils over the items: the lines of the items in the group `isNum`. */
  method PrintPass(items: seq<(AffKey, string)>, isNum: bool) returns (out: string)
    ensures out == AffilLines(ItemsWhere(items, isNum))
  {
    out := "";
    for j := 0 to |items|
      invariant out == AffilLines(ItemsWhere(items[..j], isNum))
    {
      PassSnoc(items, j, isNum);
      var (i, aff) := items[j];
      if IsNumericKey(i) == isNum {
        out := out + AffilLine((i, aff));
      }
    }
    assert items[..|items|] == items;
  }

  /** print_affils as the source runs it: one pass per group (or one pass in dict order), then the trailer. */
  method PrintAffils(affils: ODict<AffKey, string>, plaintextOut: bool, numericFirst: bool) returns (out: string)
    requires affils.Valid()
    ensures out == AffilsText(affils, plaintextOut, numericFirst)
  {
    var items := affils.Items();
    out := "";
    if numericFirst {
      var passes := [true, false];
      ghost var numeric, others := ItemsWhere(items, true), ItemsWhere(items, false);
      for p := 0 to 2
        invariant out == AffilLines(if p == 0 then [] else if p == 1 then numeric else numeric + others)
      {
        var lines := PrintPass(items, passes[p]);
        if p == 1 {
          AffilLinesAppend(numeric, others);
        }
        out := out + lines;
      }
    } else {
      for j := 0 to |items|
        invariant out == AffilLines(items[..j])
      {
        AffilLinesSnoc(items, j);
        var (i, aff) := items[j];
        out := out + AffilLine((i, aff));
      }
      assert items[..|items|] == items;
    }
    out := out + AffilsTrailer(plaintextOut);
  }
}
