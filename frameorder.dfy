/**
 * Frame ordering shared by the video step of Plot_all.py and by
 * VideoMaker.py: only `.jpg` names are kept, and they are sorted, stably and
 * in ascending order, by the integer spelled by all their digits read left
 * to right (`int("".join([i for i in x if i.isdigit()]))`).
 */
module FrameOrder {
  import opened Wrappers
  import opened Text

  /** `f.endswith('.jpg')`. */
  predicate IsJpg(name: string) {
    EndsWith(name, ".jpg")
  }

  /** `[f for f in listing if f.endswith('.jpg')]`. */
  function JpgFiles(listing: seq<string>): (r: seq<string>)
    ensures |r| <= |listing|
    ensures forall k :: 0 <= k < |r| ==> IsJpg(r[k]) && r[k] in listing
    ensures forall k :: 0 <= k < |listing| && IsJpg(listing[k]) ==> listing[k] in r
  {
    if |listing| == 0 then []
    else (if IsJpg(listing[0]) then [listing[0]] else []) + JpgFiles(listing[1..])
  }

  /** Filtering keeps the listing order: the files of a listing made of two
      parts are those of the first part, then those of the second. */
  lemma {:induction false} JpgFilesAppend(a: seq<string>, b: seq<string>)
    ensures JpgFiles(a + b) == JpgFiles(a) + JpgFiles(b)
    decreases |a|
  {
    if |a| == 0 {
      assert a + b == b;
    } else {
      assert (a + b)[1..] == a[1..] + b;
      JpgFilesAppend(a[1..], b);
    }
  }

  /** The digit characters of `name`, in order. */
  function Digits(name: string): (r: string)
    ensures |r| <= |name|
    ensures forall k :: 0 <= k < |r| ==> IsDigit(r[k])
  {
    if |name| == 0 then []
    else (if IsDigit(name[0]) then [name[0]] else []) + Digits(name[1..])
  }

  lemma {:induction false} DigitsAppend(a: string, b: string)
    ensures Digits(a + b) == Digits(a) + Digits(b)
    decreases |a|
  {
    if |a| == 0 {
      assert a + b == b;
    } else {
      assert (a + b)[1..] == a[1..] + b;
      DigitsAppend(a[1..], b);
    }
  }

  /** A name has an empty digit string exactly when it holds no digit. */
  lemma {:induction false} DigitsEmptyIff(name: string)
    ensures Digits(name) == [] <==> forall k :: 0 <= k < |name| ==> !IsDigit(name[k])
    decreases |name|
  {
    if |name| > 0 {
      DigitsEmptyIff(name[1..]);
      assert forall k :: 1 <= k < |name| ==> name[k] == name[1..][k - 1];
    }
  }

  function DigitValue(c: char): (r: nat)
    requires IsDigit(c)
    ensures r < 10
  {
    c as int - '0' as int
  }

  predicate AllDigits(ds: string) {
    forall k :: 0 <= k < |ds| ==> IsDigit(ds[k])
  }

  /** `int(ds)` on a string of decimal digits, most significant first. */
  function Decimal(ds: string): nat
    requires AllDigits(ds)
  {
    if |ds| == 0 then 0 else Decimal(ds[..|ds| - 1]) * 10 + DigitValue(ds[|ds| - 1])
  }

  function Pow10(n: nat): (r: nat)
    ensures r >= 1
  {
    if n == 0 then 1 else 10 * Pow10(n - 1)
  }

  /** A value written with `n` digits is below `10^n`: a shorter digit
      string without leading zeros sorts before a longer one, which is why
      W_3 comes before W_10 although it does not as text. */
  lemma {:induction false} DecimalBelow(ds: string)
    requires AllDigits(ds)
    ensures Decimal(ds) < Pow10(|ds|)
    decreases |ds|
  {
    if |ds| > 0 {
      DecimalBelow(ds[..|ds| - 1]);
    }
  }

  /** A leading non-zero digit puts the value at or above `10^(n-1)`. */
  lemma {:induction false} DecimalAtLeast(ds: string)
    requires AllDigits(ds) && |ds| > 0 && ds[0] != '0'
    ensures Decimal(ds) >= Pow10(|ds| - 1)
    decreases |ds|
  {
    if |ds| > 1 {
      var init := ds[..|ds| - 1];
      assert init[0] == ds[0];
      DecimalAtLeast(init);
    }
  }

  /** The sort key of a name, or None where `int("")` raises because the
      name holds no digit. */
  function SortKey(name: string): (r: Option<nat>)
    ensures r.None? <==> forall k :: 0 <= k < |name| ==> !IsDigit(name[k])
  {
    DigitsEmptyIff(name);
    var ds := Digits(name);
    if |ds| == 0 then None else Some(Decimal(ds))
  }

  /** The key used for ordering; `SortKey` says when it exists. */
  function Key(name: string): nat {
    Decimal(Digits(name))
  }

  /** A name paired with its key, as `sort(key=...)` pairs them. */
  datatype Frame = Frame(key: nat, name: string)

  function Keyed(names: seq<string>): (r: seq<Frame>)
    ensures |r| == |names|
    ensures forall k :: 0 <= k < |r| ==> r[k] == Frame(Key(names[k]), names[k])
  {
    if |names| == 0 then [] else [Frame(Key(names[0]), names[0])] + Keyed(names[1..])
  }

  function Names(frames: seq<Frame>): (r: seq<string>)
    ensures |r| == |frames|
    ensures forall k :: 0 <= k < |r| ==> r[k] == frames[k].name
  {
    if |frames| == 0 then [] else [frames[0].name] + Names(frames[1..])
  }

  /** Every frame carries the key of its own name. */
  predicate WellKeyed(frames: seq<Frame>) {
    forall k :: 0 <= k < |frames| ==> frames[k].key == Key(frames[k].name)
  }

  lemma KeyedNames(frames: seq<Frame>)
    requires WellKeyed(frames)
    ensures Keyed(Names(frames)) == frames
  {
  }

  /** Insert `x` before the first frame whose key is not smaller: `x` goes
      ahead of the frames with its own key, so inserting the earlier frames
      last keeps equal keys in their original order. */
  function Insert(x: Frame, s: seq<Frame>): (r: seq<Frame>)
    ensures |r| == |s| + 1
  {
    if |s| == 0 then [x]
    else if x.key <= s[0].key then [x] + s
    else [s[0]] + Insert(x, s[1..])
  }

  /** A stable sort by key (the order `sorted` and `list.sort` produce). */
  function Sort(s: seq<Frame>): (r: seq<Frame>)
    ensures |r| == |s|
  {
    if |s| == 0 then [] else Insert(s[0], Sort(s[1..]))
  }

  predicate SortedByKey(s: seq<Frame>) {
    forall i, j :: 0 <= i < j < |s| ==> s[i].key <= s[j].key
  }

  /** The frames of `s` whose key is `k`, in their order in `s`. */
  function WithKey(s: seq<Frame>, k: nat): seq<Frame> {
    if |s| == 0 then [] else (if s[0].key == k then [s[0]] else []) + WithKey(s[1..], k)
  }

  predicate KeysAtLeast(s: seq<Frame>, b: nat) {
    forall k :: 0 <= k < |s| ==> b <= s[k].key
  }

  lemma {:induction false} InsertAtLeast(x: Frame, s: seq<Frame>, b: nat)
    requires KeysAtLeast(s, b) && b <= x.key
    ensures KeysAtLeast(Insert(x, s), b)
    decreases |s|
  {
    if |s| > 0 && x.key > s[0].key {
      InsertAtLeast(x, s[1..], b);
    }
  }

  lemma {:induction false} InsertSorted(x: Frame, s: seq<Frame>)
    requires SortedByKey(s)
    ensures SortedByKey(Insert(x, s))
    decreases |s|
  {
    if |s| > 0 && x.key > s[0].key {
      InsertSorted(x, s[1..]);
      InsertAtLeast(x, s[1..], s[0].key);
    }
  }

  lemma {:induction false} InsertPermutes(x: Frame, s: seq<Frame>)
    ensures multiset(Insert(x, s)) == multiset(s) + multiset{x}
    decreases |s|
  {
    if |s| > 0 && x.key > s[0].key {
      InsertPermutes(x, s[1..]);
      assert s == [s[0]] + s[1..];
    }
  }

  lemma {:induction false} InsertWithKey(x: Frame, s: seq<Frame>, k: nat)
    ensures WithKey(Insert(x, s), k) == (if x.key == k then [x] else []) + WithKey(s, k)
    decreases |s|
  {
    if |s| > 0 && x.key > s[0].key {
      InsertWithKey(x, s[1..], k);
    } else {
      assert ([x] + s)[1..] == s;
    }
  }

  lemma {:induction false} SortSorted(s: seq<Frame>)
    ensures SortedByKey(Sort(s))
    decreases |s|
  {
    if |s| > 0 {
      SortSorted(s[1..]);
      InsertSorted(s[0], Sort(s[1..]));
    }
  }

  lemma {:induction false} SortPermutes(s: seq<Frame>)
    ensures multiset(Sort(s)) == multiset(s)
    decreases |s|
  {
    if |s| > 0 {
      SortPermutes(s[1..]);
      InsertPermutes(s[0], Sort(s[1..]));
      assert s == [s[0]] + s[1..];
    }
  }

  lemma {:induction false} SortKeepsKeyOrder(s: seq<Frame>, k: nat)
    ensures WithKey(Sort(s), k) == WithKey(s, k)
    decreases |s|
  {
    if |s| > 0 {
      SortKeepsKeyOrder(s[1..], k);
      InsertWithKey(s[0], Sort(s[1..]), k);
    }
  }

  /** `Sort` orders by key, permutes, and keeps the frames of each key in
      their original order. */
  lemma SortIsStable(s: seq<Frame>)
    ensures SortedByKey(Sort(s))
    ensures multiset(Sort(s)) == multiset(s)
    ensures forall k :: WithKey(Sort(s), k) == WithKey(s, k)
  {
    SortSorted(s);
    SortPermutes(s);
    forall k ensures WithKey(Sort(s), k) == WithKey(s, k) {
      SortKeepsKeyOrder(s, k);
    }
  }

  lemma {:induction false} FirstOfKey(a: seq<Frame>, k: nat) returns (i: nat)
    requires WithKey(a, k) != []
    ensures i < |a| && a[i].key == k && WithKey(a, k)[0] == a[i]
    decreases |a|
  {
    if a[0].key == k {
      i := 0;
    } else {
      var j := FirstOfKey(a[1..], k);
      i := j + 1;
    }
  }

  lemma HeadKeyPresent(a: seq<Frame>)
    requires |a| > 0
    ensures WithKey(a, a[0].key) != [] && WithKey(a, a[0].key)[0] == a[0]
  {
  }

  /** Same frames per key: one of the two sequences is empty exactly when
      the other is. */
  lemma EmptyTogether(a: seq<Frame>, b: seq<Frame>)
    requires forall k :: WithKey(a, k) == WithKey(b, k)
    ensures |a| == 0 <==> |b| == 0
  {
    if |a| > 0 {
      HeadKeyPresent(a);
      assert WithKey(b, a[0].key) != [];
    }
    if |b| > 0 {
      HeadKeyPresent(b);
      assert WithKey(a, b[0].key) != [];
    }
  }

  /** A stable sort has only one possible result: two key-sorted sequences
      with the same frames of each key, in the same order, are equal. */
  lemma {:induction false} StableSortUnique(a: seq<Frame>, b: seq<Frame>)
    requires SortedByKey(a) && SortedByKey(b)
    requires forall k :: WithKey(a, k) == WithKey(b, k)
    ensures a == b
    decreases |a|
  {
    EmptyTogether(a, b);
    if |a| > 0 {
      HeadKeyPresent(a);
      HeadKeyPresent(b);
      var i := FirstOfKey(a, b[0].key);
      var j := FirstOfKey(b, a[0].key);
      assert a[0].key <= a[i].key && b[0].key <= b[j].key;
      assert a[0] == b[0];
      forall k ensures WithKey(a[1..], k) == WithKey(b[1..], k) {
        var h := if a[0].key == k then [a[0]] else [];
        assert WithKey(a, k) == WithKey(b, k);
        assert h + WithKey(a[1..], k) == h + WithKey(b[1..], k);
        assert (h + WithKey(a[1..], k))[|h|..] == WithKey(a[1..], k);
        assert (h + WithKey(b[1..], k))[|h|..] == WithKey(b[1..], k);
      }
      StableSortUnique(a[1..], b[1..]);
      assert a == [a[0]] + a[1..] && b == [b[0]] + b[1..];
    }
  }

  /** Every name has a sort key. */
  predicate AllKeyed(s: seq<string>) {
    forall k :: 0 <= k < |s| ==> SortKey(s[k]).Some?
  }

  /** Sorting keeps every frame's key its name's key. */
  lemma SortWellKeyed(s: seq<Frame>)
    requires WellKeyed(s)
    ensures WellKeyed(Sort(s))
  {
    SortIsStable(s);
    forall k | 0 <= k < |Sort(s)| ensures Sort(s)[k].key == Key(Sort(s)[k].name) {
      assert Sort(s)[k] in multiset(s);
    }
  }

  /** The frames of a directory listing in the order they are written:
      None where a `.jpg` name without digits makes the key raise; otherwise
      the `.jpg` names sorted by key, each key's names in listing order. */
  function FrameOrder(listing: seq<string>): (r: Option<seq<string>>)
    ensures r.None? <==> exists k :: 0 <= k < |JpgFiles(listing)| && SortKey(JpgFiles(listing)[k]).None?
    ensures r.Some? ==> |r.value| == |JpgFiles(listing)|
    ensures r.Some? ==> SortedByKey(Keyed(r.value))
    ensures r.Some? ==> forall k :: WithKey(Keyed(r.value), k) == WithKey(Keyed(JpgFiles(listing)), k)
  {
    var files := JpgFiles(listing);
    if AllKeyed(files) then
      var sorted := Sort(Keyed(files));
      SortIsStable(Keyed(files));
      SortWellKeyed(Keyed(files));
      KeyedNames(sorted);
      Some(Names(sorted))
    else None
  }

  lemma KeyOfW3()
    ensures Key("W_3.jpg") == 3
  {
    assert Digits("W_3.jpg") == "3";
  }

  lemma KeyOfW10()
    ensures Key("W_10.jpg") == 10
  {
    assert Digits("W_10.jpg") == "10";
    assert "10"[..1] == "1" && "1"[..0] == [];
    assert Decimal("1") == 1;
  }

  lemma KeyOfW21()
    ensures Key("W_21.jpg") == 21
  {
    assert Digits("W_21.jpg") == "21";
    assert "21"[..1] == "2" && "2"[..0] == [];
    assert Decimal("2") == 2;
  }

  lemma KeyedExample()
    ensures Keyed(["W_21.jpg", "W_3.jpg", "W_10.jpg"])
         == [Frame(21, "W_21.jpg"), Frame(3, "W_3.jpg"), Frame(10, "W_10.jpg")]
  {
    KeyOfW3();
    KeyOfW10();
    KeyOfW21();
  }

  lemma SortExample(a: string, b: string, c: string)
    ensures Sort([Frame(21, a), Frame(3, b), Frame(10, c)]) == [Frame(3, b), Frame(10, c), Frame(21, a)]
  {
    var fa, fb, fc := Frame(21, a), Frame(3, b), Frame(10, c);
    assert [fa, fb, fc][1..] == [fb, fc] && [fb, fc][1..] == [fc];
    assert Sort([fc]) == [fc];
    assert Sort([fb, fc]) == [fb, fc];
    assert Insert(fa, [fc]) == [fc, fa];
    assert Insert(fa, [fb, fc]) == [fb] + Insert(fa, [fc]);
  }

  /** W_21, W_3 and W_10 are written as W_3, W_10, W_21. */
  lemma FramesInNumericOrder()
    ensures Names(Sort(Keyed(["W_21.jpg", "W_3.jpg", "W_10.jpg"]))) == ["W_3.jpg", "W_10.jpg", "W_21.jpg"]
  {
    KeyedExample();
    SortExample("W_21.jpg", "W_3.jpg", "W_10.jpg");
  }
}
