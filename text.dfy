/**
 * The Python string and sequence primitives the scripts rely on:
 * str.isdigit (ASCII digits only), str.rstrip(), str.split(sep) with a
 * one-character separator, sep.join(parts), str(n) for a natural number,
 * and the slicing and indexing rules for `s[n:]`, `s[:n]` and `s[i]`.
 */
module Text {
  import opened Wrappers

  predicate IsDigit(c: char) { '0' <= c <= '9' }

  /** `s.isdigit()`: non-empty and made only of digits. */
  predicate IsDigits(s: string) {
    |s| > 0 && forall i :: 0 <= i < |s| ==> IsDigit(s[i])
  }

  /** The characters `str.rstrip()` removes (the ASCII whitespace set). */
  predicate IsSpace(c: char) {
    c == ' ' || c == '\t' || c == '\n' || c == '\r' || c == '\U{000B}' || c == '\U{000C}'
  }

  /** `s.rstrip()`: the longest prefix of `s` that does not end in whitespace. */
  function RStrip(s: string): (r: string)
    ensures r <= s
    ensures |r| == 0 || !IsSpace(r[|r| - 1])
    ensures forall i :: |r| <= i < |s| ==> IsSpace(s[i])
  {
    if |s| > 0 && IsSpace(s[|s| - 1]) then RStrip(s[..|s| - 1]) else s
  }

  /** `sep.join(parts)`. */
  function Join(parts: seq<string>, sep: string): string
  {
    if |parts| == 0 then ""
    else if |parts| == 1 then parts[0]
    else parts[0] + sep + Join(parts[1..], sep)
  }

  /** `s.split(sep)` for a single separator character: never empty, and no part holds `sep`. */
  function Split(s: string, sep: char): (parts: seq<string>)
    ensures |parts| >= 1
    ensures forall i :: 0 <= i < |parts| ==> sep !in parts[i]
  {
    if |s| == 0 then [""]
    else
      var rest := Split(s[1..], sep);
      if s[0] == sep then [""] + rest
      else [[s[0]] + rest[0]] + rest[1..]
  }

  /** Joining with a longer separator list: Join(parts + [x]) adds the separator and x at the end. */
  lemma {:induction false} JoinSnoc(parts: seq<string>, x: string, sep: string)
    requires |parts| > 0
    ensures Join(parts + [x], sep) == Join(parts, sep) + sep + x
  {
    if |parts| == 1 {
      assert parts + [x] == [parts[0], x];
    } else {
      assert (parts + [x])[1..] == parts[1..] + [x];
      JoinSnoc(parts[1..], x, sep);
    }
  }

  /** The joined string starts with the first part. */
  lemma JoinStartsWithFirst(parts: seq<string>, sep: string)
    requires |parts| > 0
    ensures parts[0] <= Join(parts, sep)
  {
  }

  /** Prepending characters to the first part prepends them to the joined string. */
  lemma JoinConsFirst(c: string, parts: seq<string>, sep: string)
    requires |parts| > 0
    ensures Join([c + parts[0]] + parts[1..], sep) == c + Join(parts, sep)
  {
    var q := [c + parts[0]] + parts[1..];
    if |parts| > 1 {
      assert q[1..] == parts[1..];
    }
  }

  /** How often `c` occurs in `s`: `s.count(c)`. */
  function Occurrences(s: string, c: char): nat
  {
    if |s| == 0 then 0 else (if s[0] == c then 1 else 0) + Occurrences(s[1..], c)
  }

  lemma {:induction false} OccurrencesAppend(a: string, b: string, c: char)
    ensures Occurrences(a + b, c) == Occurrences(a, c) + Occurrences(b, c)
  {
    if |a| == 0 {
      assert a + b == b;
    } else {
      OccurrencesAppend(a[1..], b, c);
      assert (a + b)[1..] == a[1..] + b;
    }
  }

  lemma {:induction false} OccurrencesAbsent(s: string, c: char)
    requires c !in s
    ensures Occurrences(s, c) == 0
  {
    if |s| > 0 {
      OccurrencesAbsent(s[1..], c);
    }
  }

  /** Joining never introduces a character that is in neither the parts nor the separator. */
  lemma {:induction false} JoinAvoids(parts: seq<string>, sep: string, ch: char)
    requires ch !in sep
    requires forall i :: 0 <= i < |parts| ==> ch !in parts[i]
    ensures ch !in Join(parts, sep)
  {
    if |parts| > 1 {
      JoinAvoids(parts[1..], sep, ch);
    }
  }

  /** Splitting and joining again gives back the string. */
  lemma {:induction false} JoinSplit(s: string, sep: char)
    ensures Join(Split(s, sep), [sep]) == s
  {
    if |s| > 0 {
      var rest := Split(s[1..], sep);
      JoinSplit(s[1..], sep);
      if s[0] == sep {
        assert ([""] + rest)[1..] == rest;
        assert s == [sep] + s[1..];
      } else {
        JoinConsFirst([s[0]], rest, [sep]);
        assert s == [s[0]] + s[1..];
      }
    }
  }

  /** Splitting a part that holds no separator, followed by the separator, cuts exactly there. */
  lemma {:induction false} SplitAfterPart(x: string, sep: char, y: string)
    requires sep !in x
    ensures Split(x + [sep] + y, sep) == [x] + Split(y, sep)
  {
    if |x| == 0 {
      assert x + [sep] + y == [sep] + y;
      assert ([sep] + y)[1..] == y;
    } else {
      assert (x + [sep] + y)[1..] == x[1..] + [sep] + y;
      SplitAfterPart(x[1..], sep, y);
      assert [x[0]] + x[1..] == x;
    }
  }

  /** A string without the separator splits into itself. */
  lemma {:induction false} SplitNoSeparator(x: string, sep: char)
    requires sep !in x
    ensures Split(x, sep) == [x]
  {
    if |x| > 0 {
      SplitNoSeparator(x[1..], sep);
      assert [x[0]] + x[1..] == x;
    }
  }

  /** Joining parts free of the separator and splitting again gives back the parts. */
  lemma {:induction false} SplitJoin(parts: seq<string>, sep: char)
    requires |parts| >= 1
    requires forall i :: 0 <= i < |parts| ==> sep !in parts[i]
    ensures Split(Join(parts, [sep]), sep) == parts
  {
    if |parts| == 1 {
      SplitNoSeparator(parts[0], sep);
    } else {
      SplitJoin(parts[1..], sep);
      assert parts[0] + [sep] + Join(parts[1..], [sep]) == Join(parts, [sep]);
      SplitAfterPart(parts[0], sep, Join(parts[1..], [sep]));
      assert [parts[0]] + parts[1..] == parts;
    }
  }

  function DigitChar(d: nat): (c: char)
    requires d < 10
    ensures IsDigit(c)
  {
    ['0', '1', '2', '3', '4', '5', '6', '7', '8', '9'][d]
  }

  function DigitValue(c: char): nat
    requires IsDigit(c)
  {
    (c as int - '0' as int) as nat
  }

  /** `str(n)` for a natural number: its decimal digits, most significant first. */
  function NatToString(n: nat): (s: string)
    ensures IsDigits(s)
  {
    if n < 10 then [DigitChar(n)] else NatToString(n / 10) + [DigitChar(n % 10)]
  }

  /** `int(s)` for a string of digits. */
  function ParseNat(s: string): nat
    requires IsDigits(s)
    decreases |s|
  {
    if |s| == 1 then DigitValue(s[0])
    else 10 * ParseNat(s[..|s| - 1]) + DigitValue(s[|s| - 1])
  }

  /** A digit string that does not start with '0' has a positive value. */
  lemma {:induction false} ParseNatPositive(s: string)
    requires IsDigits(s) && s[0] != '0'
    ensures ParseNat(s) >= 1
    ensures |s| >= 2 ==> ParseNat(s) >= 10
  {
    if |s| >= 2 {
      ParseNatPositive(s[..|s| - 1]);
    }
  }

  /** `str(int(s)) == s` for a digit string without a leading zero (or the single digit "0"). */
  lemma {:induction false} NatToStringParseNat(s: string)
    requires IsDigits(s) && (|s| == 1 || s[0] != '0')
    ensures NatToString(ParseNat(s)) == s
  {
    if |s| == 1 {
      assert [DigitChar(DigitValue(s[0]))] == s;
    } else {
      var init, d := s[..|s| - 1], DigitValue(s[|s| - 1]);
      ParseNatPositive(s);
      NatToStringParseNat(init);
      assert ParseNat(s) / 10 == ParseNat(init) && ParseNat(s) % 10 == d;
      assert DigitChar(d) == s[|s| - 1];
      assert init + [s[|s| - 1]] == s;
    }
  }

  /** `int(str(n)) == n`. */
  lemma {:induction false} ParseNatToString(n: nat)
    ensures ParseNat(NatToString(n)) == n
  {
    if n >= 10 {
      var s := NatToString(n);
      ParseNatToString(n / 10);
      assert s[..|s| - 1] == NatToString(n / 10);
    }
  }

  /** Python's `s[n:]`: a negative n counts from the end, a large n gives the empty sequence. */
  function PyDrop<T>(s: seq<T>, n: int): (r: seq<T>)
    ensures 0 <= n ==> |r| == if n <= |s| then |s| - n else 0
    ensures 0 <= n <= |s| ==> forall i :: 0 <= i < |r| ==> r[i] == s[n + i]
    ensures n < 0 ==> |r| == if -n <= |s| then -n else |s|
    ensures n < 0 && -n <= |s| ==> r == s[|s| + n..]
    ensures n < -|s| ==> r == s
    ensures r <= s || (|r| > 0 && r == s[|s| - |r|..])
  {
    if n >= 0 then (if n <= |s| then s[n..] else [])
    else if -n <= |s| then s[|s| + n..] else s
  }

  /** Python's `s[:n]` for n >= 0. */
  function PyTake<T>(s: seq<T>, n: nat): (r: seq<T>)
    ensures |r| == if n <= |s| then n else |s|
    ensures r <= s
  {
    if n <= |s| then s[..n] else s
  }

  /** Python's `s[i]`: a negative i counts from the end; out of range raises (None here). */
  function PyIndex<T>(s: seq<T>, i: int): (r: Option<T>)
    ensures r.Some? <==> -|s| <= i < |s|
    ensures 0 <= i < |s| ==> r == Some(s[i])
    ensures -|s| <= i < 0 ==> r == Some(s[|s| + i])
  {
    if 0 <= i < |s| then Some(s[i])
    else if -|s| <= i < 0 then Some(s[|s| + i])
    else None
  }

  /** A non-negative index and the same index counted from the end name the same element. */
  lemma PyIndexWraps<T>(s: seq<T>, i: int)
    requires 0 <= i < |s|
    ensures PyIndex(s, i) == PyIndex(s, i - |s|)
    ensures PyIndex(s, i).Some? && PyIndex(s, i + |s|).None? && PyIndex(s, i - 2 * |s|).None?
  {
  }

  /** The non-empty items, in order (`[x for x in xs if x != '']`). */
  function NonEmpty(items: seq<string>): (r: seq<string>)
    ensures forall i :: 0 <= i < |r| ==> r[i] != ""
    ensures |r| <= |items|
    ensures forall x :: x != "" ==> multiset(r)[x] == multiset(items)[x]
  {
    if |items| == 0 then []
    else
      assert items == [items[0]] + items[1..];
      (if items[0] == "" then [] else [items[0]]) + NonEmpty(items[1..])
  }

  /**
   * `r` is the elements of `s` at the strictly increasing positions `idx`:
   * a subsequence taken in order.
   */
  ghost predicate OrderedPick<T>(r: seq<T>, s: seq<T>, idx: seq<nat>) {
    && |idx| == |r|
    && (forall k :: 0 <= k < |idx| ==> idx[k] < |s| && r[k] == s[idx[k]])
    && (forall k, l :: 0 <= k < l < |idx| ==> idx[k] < idx[l])
  }

  /** Skipping the empty items keeps every other item, each at its own position, in order. */
  lemma {:induction false} NonEmptyKeepsOrder(items: seq<string>) returns (idx: seq<nat>)
    ensures OrderedPick(NonEmpty(items), items, idx)
    ensures forall j :: 0 <= j < |items| && items[j] != "" ==> j in idx
  {
    if |items| == 0 {
      idx := [];
    } else {
      var rest := NonEmptyKeepsOrder(items[1..]);
      var shifted := Shift(rest);
      idx := (if items[0] == "" then [] else [0]) + shifted;
      PickCons(items, rest);
      forall j | 0 < j < |items| && items[j] != "" ensures j in idx {
        assert items[1..][j - 1] == items[j];
        var k :| 0 <= k < |rest| && rest[k] == j - 1;
        assert shifted[k] == j;
      }
    }
  }

  function Shift(idx: seq<nat>): (r: seq<nat>)
    ensures |r| == |idx| && forall k :: 0 <= k < |r| ==> r[k] == idx[k] + 1
  {
    seq(|idx|, k requires 0 <= k < |idx| => idx[k] + 1)
  }

  /** The pick for the tail, shifted by one, with the head put in front when it is kept. */
  lemma PickCons(items: seq<string>, rest: seq<nat>)
    requires |items| > 0 && OrderedPick(NonEmpty(items[1..]), items[1..], rest)
    ensures OrderedPick(NonEmpty(items), items, (if items[0] == "" then [] else [0]) + Shift(rest))
  {
    var t := NonEmpty(items[1..]);
    PickShifted(t, items, rest);
    if items[0] == "" {
      assert NonEmpty(items) == t;
      assert [] + Shift(rest) == Shift(rest);
    } else {
      assert NonEmpty(items) == [items[0]] + t;
      PickPrepend(t, items, Shift(rest));
    }
  }

  /** Shifting a pick out of the tail by one picks the same items out of the whole sequence. */
  lemma PickShifted<T>(t: seq<T>, s: seq<T>, rest: seq<nat>)
    requires |s| > 0 && OrderedPick(t, s[1..], rest)
    ensures OrderedPick(t, s, Shift(rest))
    ensures forall k :: 0 <= k < |rest| ==> Shift(rest)[k] > 0
  {
  }

  /** A pick out of a prefix is a pick out of the whole sequence. */
  lemma PickWiden<T>(t: seq<T>, s: seq<T>, n: nat, idx: seq<nat>)
    requires n <= |s| && OrderedPick(t, s[..n], idx)
    ensures OrderedPick(t, s, idx)
    ensures forall k :: 0 <= k < |idx| ==> idx[k] < n
  {
  }

  /** Picking the last position after a pick out of the rest keeps the pick in order. */
  lemma PickAppendLast<T>(t: seq<T>, s: seq<T>, idx: seq<nat>)
    requires |s| > 0 && OrderedPick(t, s, idx)
    requires forall k :: 0 <= k < |idx| ==> idx[k] < |s| - 1
    ensures OrderedPick(t + [s[|s| - 1]], s, idx + [|s| - 1])
  {
    var r, ix := t + [s[|s| - 1]], idx + [|s| - 1];
    forall k | 0 <= k < |ix| ensures ix[k] < |s| && r[k] == s[ix[k]] {
      if k < |idx| {
        assert ix[k] == idx[k] && r[k] == t[k];
      }
    }
  }

  /** Picking position 0 first keeps the pick in order. */
  lemma PickPrepend<T>(t: seq<T>, s: seq<T>, sh: seq<nat>)
    requires |s| > 0 && OrderedPick(t, s, sh)
    requires forall k :: 0 <= k < |sh| ==> sh[k] > 0
    ensures OrderedPick([s[0]] + t, s, [0] + sh)
  {
    var r, idx := [s[0]] + t, [0] + sh;
    forall k | 0 < k < |idx| ensures idx[k] < |s| && r[k] == s[idx[k]] {
      assert idx[k] == sh[k - 1] && r[k] == t[k - 1];
    }
    forall k, l | 0 <= k < l < |idx| ensures idx[k] < idx[l] {
      assert idx[l] == sh[l - 1];
      if k > 0 {
        assert idx[k] == sh[k - 1];
      }
    }
  }

  lemma {:induction false} NonEmptyIn(items: seq<string>)
    ensures forall x :: x in NonEmpty(items) ==> x in items
  {
    if |items| > 0 {
      NonEmptyIn(items[1..]);
    }
  }
}
