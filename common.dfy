/**
 * Small shared vocabulary of the model: an optional value (Java's null),
 * bytes, the decimal rendering of Integer.toString and the UTF-8 encoding
 * of String.getBytes("UTF-8").
 */
module Common {

  /** A value that may be absent; None plays the part of Java's null. */
  datatype Option<+T> = None | Some(value: T) {
    function GetOr(default: T): T {
      if Some? then value else default
    }
  }

  type Byte = b: int | 0 <= b < 256

  function Min(a: int, b: int): int {
    if a <= b then a else b
  }

  predicate IsDigit(c: char) {
    '0' <= c <= '9'
  }

  predicate AllDigits(s: string) {
    forall i :: 0 <= i < |s| ==> IsDigit(s[i])
  }

  function DigitChar(d: nat): (c: char)
    requires d < 10
    ensures IsDigit(c) && c as int - '0' as int == d
  {
    ('0' as int + d) as char
  }

  /** Integer.toString of a non-negative value: decimal digits, no sign, no leading zero. */
  function Decimal(n: nat): (s: string)
    ensures |s| >= 1 && AllDigits(s)
    ensures |s| > 1 ==> s[0] != '0'
    decreases n
  {
    if n < 10 then [DigitChar(n)] else Decimal(n / 10) + [DigitChar(n % 10)]
  }

  /** Reads a string of decimal digits back as a number (the partner of Decimal). */
  function ParseDecimal(s: string): nat
    requires AllDigits(s)
  {
    if s == [] then 0
    else ParseDecimal(s[..|s| - 1]) * 10 + (s[|s| - 1] as int - '0' as int)
  }

  lemma {:induction false} DecimalRoundTrip(n: nat)
    ensures ParseDecimal(Decimal(n)) == n
  {
    if n >= 10 {
      var s := Decimal(n);
      assert s[..|s| - 1] == Decimal(n / 10);
      DecimalRoundTrip(n / 10);
    }
  }

  /** Decimal is one-to-one, so a Content-Length value names exactly one length. */
  lemma DecimalInjective(m: nat, n: nat)
    requires Decimal(m) == Decimal(n)
    ensures m == n
  {
    DecimalRoundTrip(m);
    DecimalRoundTrip(n);
  }

  /** The UTF-8 encoding of one Unicode scalar value. */
  function Utf8Char(c: char): (bs: seq<Byte>)
    ensures 1 <= |bs| <= 4
    ensures |bs| == 1 <==> c as int < 0x80
    ensures |bs| == 1 ==> bs[0] == c as int
  {
    var n := c as int;
    if n < 0x80 then [n]
    else if n < 0x800 then [0xC0 + n / 0x40, 0x80 + n % 0x40]
    else if n < 0x1_0000 then [0xE0 + n / 0x1000, 0x80 + (n / 0x40) % 0x40, 0x80 + n % 0x40]
    else [0xF0 + n / 0x4_0000, 0x80 + (n / 0x1000) % 0x40, 0x80 + (n / 0x40) % 0x40, 0x80 + n % 0x40]
  }

  /** String.getBytes("UTF-8"). */
  function Utf8(s: string): (bs: seq<Byte>)
    ensures |bs| >= |s|
  {
    if s == [] then [] else Utf8Char(s[0]) + Utf8(s[1..])
  }

  predicate IsAscii(s: string) {
    forall i :: 0 <= i < |s| ==> s[i] as int < 0x80
  }

  /** An ASCII message is encoded one byte per character, unchanged. */
  lemma {:induction false} Utf8Ascii(s: string)
    requires IsAscii(s)
    ensures |Utf8(s)| == |s|
    ensures forall i :: 0 <= i < |s| ==> Utf8(s)[i] == s[i] as int
  {
    if s != [] {
      Utf8Ascii(s[1..]);
      assert Utf8(s) == [s[0] as int] + Utf8(s[1..]);
    }
  }

  /**
   * A key/value store filled from left to right, a later pair overwriting an
   * earlier one with the same key (java.util.Properties.put in a loop).
   */
  function Overlay<K, V>(m: map<K, V>, kvs: seq<(K, V)>): map<K, V> {
    if kvs == [] then m
    else Overlay(m, kvs[..|kvs| - 1])[kvs[|kvs| - 1].0 := kvs[|kvs| - 1].1]
  }

  /** The last pair for a key decides its value. */
  lemma {:induction false} OverlayLastWins<K, V>(m: map<K, V>, kvs: seq<(K, V)>, i: nat)
    requires i < |kvs|
    requires forall j :: i < j < |kvs| ==> kvs[j].0 != kvs[i].0
    ensures kvs[i].0 in Overlay(m, kvs) && Overlay(m, kvs)[kvs[i].0] == kvs[i].1
  {
    if i < |kvs| - 1 {
      OverlayLastWins(m, kvs[..|kvs| - 1], i);
    }
  }

  /** A key no pair mentions keeps what the store held before. */
  lemma {:induction false} OverlayUntouched<K, V>(m: map<K, V>, kvs: seq<(K, V)>, k: K)
    requires forall j :: 0 <= j < |kvs| ==> kvs[j].0 != k
    ensures k in Overlay(m, kvs) <==> k in m
    ensures k in m ==> Overlay(m, kvs)[k] == m[k]
  {
    if kvs != [] {
      OverlayUntouched(m, kvs[..|kvs| - 1], k);
    }
  }

  function KeysOf<K, V>(kvs: seq<(K, V)>): set<K> {
    set j | 0 <= j < |kvs| :: kvs[j].0
  }

  /** The keys afterwards are the keys before plus the keys of the pairs. */
  lemma {:induction false} OverlayKeys<K, V>(m: map<K, V>, kvs: seq<(K, V)>)
    ensures Overlay(m, kvs).Keys == m.Keys + KeysOf(kvs)
  {
    if kvs != [] {
      var init := kvs[..|kvs| - 1];
      OverlayKeys(m, init);
      assert KeysOf(kvs) == KeysOf(init) + {kvs[|kvs| - 1].0} by {
        forall k | k in KeysOf(kvs) ensures k in KeysOf(init) + {kvs[|kvs| - 1].0} {
          var j :| 0 <= j < |kvs| && kvs[j].0 == k;
          if j < |init| {
            assert init[j].0 == k;
          }
        }
      }
    }
  }

  function Yield<T>(o: Option<T>): seq<T> {
    if o.Some? then [o.value] else []
  }

  /** What the items yield under f, in order; an item yielding None adds nothing. */
  function Collect<T, K, V>(items: seq<T>, f: T -> Option<(K, V)>): seq<(K, V)> {
    if items == [] then []
    else Collect(items[..|items| - 1], f) + Yield(f(items[|items| - 1]))
  }

  lemma CollectSnoc<T, K, V>(items: seq<T>, item: T, f: T -> Option<(K, V)>)
    ensures Collect(items + [item], f) == Collect(items, f) + Yield(f(item))
  {
    assert (items + [item])[..|items|] == items;
  }

  lemma OverlaySnoc<K, V>(m: map<K, V>, kvs: seq<(K, V)>, kv: (K, V))
    ensures Overlay(m, kvs + [kv]) == Overlay(m, kvs)[kv.0 := kv.1]
  {
    assert (kvs + [kv])[..|kvs|] == kvs;
  }

  /** One more item: a yielded pair is put, anything else changes nothing. */
  lemma OverlayCollectSnoc<T, K, V>(m: map<K, V>, items: seq<T>, item: T, f: T -> Option<(K, V)>)
    ensures Overlay(m, Collect(items + [item], f)) ==
            if f(item).Some? then Overlay(m, Collect(items, f))[f(item).value.0 := f(item).value.1]
            else Overlay(m, Collect(items, f))
  {
    CollectSnoc(items, item, f);
    if f(item).Some? {
      OverlaySnoc(m, Collect(items, f), f(item).value);
    } else {
      assert Collect(items + [item], f) == Collect(items, f);
    }
  }

  /** A pair put first, then the rest: the same as putting it into the store before the rest. */
  lemma {:induction false} OverlayCons<K, V>(m: map<K, V>, kv: (K, V), kvs: seq<(K, V)>)
    ensures Overlay(m, [kv] + kvs) == Overlay(m[kv.0 := kv.1], kvs)
    decreases |kvs|
  {
    if kvs != [] {
      var init := kvs[..|kvs| - 1];
      var last := kvs[|kvs| - 1];
      assert [kv] + kvs == ([kv] + init) + [last];
      OverlaySnoc(m, [kv] + init, last);
      OverlayCons(m, kv, init);
      OverlaySnoc(m[kv.0 := kv.1], init, last);
      assert kvs == init + [last];
    }
  }

  lemma {:induction false} CollectCons<T, K, V>(item: T, items: seq<T>, f: T -> Option<(K, V)>)
    ensures Collect([item] + items, f) == Yield(f(item)) + Collect(items, f)
    decreases |items|
  {
    if items != [] {
      var init := items[..|items| - 1];
      var last := items[|items| - 1];
      assert [item] + items == ([item] + init) + [last];
      assert items == init + [last];
      calc {
        Collect([item] + items, f);
        { CollectSnoc([item] + init, last, f); }
        Collect([item] + init, f) + Yield(f(last));
        { CollectCons(item, init, f); }
        Yield(f(item)) + Collect(init, f) + Yield(f(last));
        { CollectSnoc(init, last, f); }
        Yield(f(item)) + Collect(items, f);
      }
    }
  }

  /** One item in front: its pair, if any, is put before the rest. */
  lemma OverlayCollectCons<T, K, V>(m: map<K, V>, item: T, items: seq<T>, f: T -> Option<(K, V)>)
    ensures Overlay(m, Collect([item] + items, f)) ==
            Overlay(if f(item).Some? then m[f(item).value.0 := f(item).value.1] else m, Collect(items, f))
  {
    CollectCons(item, items, f);
    if f(item).Some? {
      OverlayCons(m, f(item).value, Collect(items, f));
    } else {
      assert Collect([item] + items, f) == Collect(items, f);
    }
  }

  /** The last item yielding a key decides its value. */
  lemma {:induction false} OverlayCollectLastWins<T, K, V>(m: map<K, V>, items: seq<T>, f: T -> Option<(K, V)>, i: nat)
    requires i < |items| && f(items[i]).Some?
    requires forall j :: i < j < |items| && f(items[j]).Some? ==> f(items[j]).value.0 != f(items[i]).value.0
    ensures f(items[i]).value.0 in Overlay(m, Collect(items, f))
    ensures Overlay(m, Collect(items, f))[f(items[i]).value.0] == f(items[i]).value.1
  {
    var init := items[..|items| - 1];
    var last := items[|items| - 1];
    var kv := f(items[i]).value;
    assert items == init + [last];
    OverlayCollectSnoc(m, init, last, f);
    if i < |items| - 1 {
      assert init[i] == items[i];
      forall j | i < j < |init| && f(init[j]).Some?
        ensures f(init[j]).value.0 != kv.0
      {
        assert init[j] == items[j];
      }
      OverlayCollectLastWins(m, init, f, i);
    }
  }

  /** Every key in the store was there before or is yielded by some item. */
  lemma {:induction false} OverlayCollectFrom<T, K, V>(m: map<K, V>, items: seq<T>, f: T -> Option<(K, V)>, k: K)
    requires k in Overlay(m, Collect(items, f))
    ensures k in m || exists i :: 0 <= i < |items| && f(items[i]).Some? && f(items[i]).value.0 == k
  {
    if items != [] {
      var init := items[..|items| - 1];
      var last := items[|items| - 1];
      assert items == init + [last];
      OverlayCollectSnoc(m, init, last, f);
      if !(f(last).Some? && f(last).value.0 == k) {
        OverlayCollectFrom(m, init, f, k);
        if k !in m {
          var i :| 0 <= i < |init| && f(init[i]).Some? && f(init[i]).value.0 == k;
          assert items[i] == init[i];
        }
      }
    }
  }

  predicate AllSome<T, K, V>(items: seq<T>, f: T -> Option<(K, V)>) {
    forall i :: 0 <= i < |items| ==> f(items[i]).Some?
  }

  /** When every item yields a pair, Collect keeps one pair per item, in order. */
  lemma {:induction false} CollectAllSome<T, K, V>(items: seq<T>, f: T -> Option<(K, V)>)
    requires AllSome(items, f)
    ensures |Collect(items, f)| == |items|
    ensures forall i :: 0 <= i < |items| ==> Collect(items, f)[i] == f(items[i]).value
  {
    if items != [] {
      var init := items[..|items| - 1];
      assert AllSome(init, f) by {
        forall i | 0 <= i < |init| ensures f(init[i]).Some? {
          assert init[i] == items[i];
        }
      }
      CollectAllSome(init, f);
      forall i | 0 <= i < |init| ensures Collect(items, f)[i] == f(items[i]).value {
        assert init[i] == items[i];
      }
    }
  }

  /**
   * Each item's pair put into the store in order, as a loop that stops at
   * the first item yielding none: then the whole is None.
   */
  function PutEach<T, K, V>(items: seq<T>, m: map<K, V>, f: T -> Option<(K, V)>): Option<map<K, V>>
    decreases |items|
  {
    if items == [] then Some(m)
    else match f(items[0])
      case None => None
      case Some(kv) => PutEach(items[1..], m[kv.0 := kv.1], f)
  }

  /** The loop fails exactly when some item yields nothing; otherwise it overlays every pair. */
  lemma {:induction false} PutEachOverlay<T, K, V>(items: seq<T>, m: map<K, V>, f: T -> Option<(K, V)>)
    ensures PutEach(items, m, f) == if AllSome(items, f) then Some(Overlay(m, Collect(items, f))) else None
    decreases |items|
  {
    if items != [] && f(items[0]).Some? {
      var kv := f(items[0]).value;
      var rest := items[1..];
      PutEachOverlay(rest, m[kv.0 := kv.1], f);
      assert AllSome(items, f) <==> AllSome(rest, f) by {
        if AllSome(rest, f) {
          forall i | 0 <= i < |items| ensures f(items[i]).Some? {
            if i > 0 {
              assert items[i] == rest[i - 1];
            }
          }
        }
      }
      assert items == [items[0]] + rest;
      OverlayCollectCons(m, items[0], rest, f);
    } else if items != [] {
      assert !AllSome(items, f);
    }
  }

  /** A key no item yields keeps what the store held before. */
  lemma {:induction false} OverlayCollectUntouched<T, K, V>(m: map<K, V>, items: seq<T>, f: T -> Option<(K, V)>, k: K)
    requires forall j :: 0 <= j < |items| && f(items[j]).Some? ==> f(items[j]).value.0 != k
    ensures k in Overlay(m, Collect(items, f)) <==> k in m
    ensures k in m ==> Overlay(m, Collect(items, f))[k] == m[k]
  {
    if items != [] {
      var init := items[..|items| - 1];
      var last := items[|items| - 1];
      assert items == init + [last];
      OverlayCollectSnoc(m, init, last, f);
      forall j | 0 <= j < |init| && f(init[j]).Some? ensures f(init[j]).value.0 != k {
        assert init[j] == items[j];
      }
      OverlayCollectUntouched(m, init, f, k);
    }
  }

  /** The store with one optional pair put into it. */
  function Put<K, V>(m: map<K, V>, kv: Option<(K, V)>): map<K, V> {
    if kv.Some? then m[kv.value.0 := kv.value.1] else m
  }

  /** Each item's pair, if it yields one, put into the store in order, as a loop does it. */
  function PutAll<T, K, V>(items: seq<T>, m: map<K, V>, f: T -> Option<(K, V)>): map<K, V>
    decreases |items|
  {
    if items == [] then m else PutAll(items[1..], Put(m, f(items[0])), f)
  }

  /** The loop and the overlay of the collected pairs agree. */
  lemma {:induction false} PutAllOverlay<T, K, V>(items: seq<T>, m: map<K, V>, f: T -> Option<(K, V)>)
    ensures PutAll(items, m, f) == Overlay(m, Collect(items, f))
    decreases |items|
  {
    if items != [] {
      PutAllOverlay(items[1..], Put(m, f(items[0])), f);
      assert items == [items[0]] + items[1..];
      OverlayCollectCons(m, items[0], items[1..], f);
    }
  }

  /** Items each yielding a given pair collect to exactly those pairs. */
  lemma {:induction false} CollectYields<T, K, V>(items: seq<T>, f: T -> Option<(K, V)>, kvs: seq<(K, V)>)
    requires |items| == |kvs|
    requires forall i :: 0 <= i < |items| ==> f(items[i]) == Some(kvs[i])
    ensures Collect(items, f) == kvs
  {
    assert AllSome(items, f);
    CollectAllSome(items, f);
  }

  /** Items each yielding a given pair: the loop succeeds with those pairs overlaid. */
  lemma PutEachYields<T, K, V>(items: seq<T>, m: map<K, V>, f: T -> Option<(K, V)>, kvs: seq<(K, V)>)
    requires |items| == |kvs|
    requires forall i :: 0 <= i < |items| ==> f(items[i]) == Some(kvs[i])
    ensures PutEach(items, m, f) == Some(Overlay(m, kvs))
  {
    assert AllSome(items, f);
    PutEachOverlay(items, m, f);
    CollectYields(items, f, kvs);
  }
}
