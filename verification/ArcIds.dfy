/**
 Arc ids and the counter the editor draws new ones from. New arcs are named
 `"a"` followed by the counter in decimal; after a net is loaded the counter
 is recomputed from the ids already in the arc table, reading each id the
 way the page does: drop the first `a`, then take the leading integer.
 */
module ArcIds {
  import opened Net

  predicate IsDigit(c: char)
  {
    '0' <= c <= '9'
  }

  function DigitValue(c: char): nat
    requires IsDigit(c)
  {
    (c - '0') as nat
  }

  function DigitChar(d: nat): (c: char)
    requires d < 10
    ensures IsDigit(c) && DigitValue(c) == d
  {
    ('0' as int + d) as char
  }

  predicate AllDigits(s: string)
  {
    forall i :: 0 <= i < |s| ==> IsDigit(s[i])
  }

  /** The decimal numeral of `n`, without leading zeros. */
  function Decimal(n: nat): (s: string)
    ensures |s| > 0 && AllDigits(s)
    decreases n
  {
    if n < 10 then [DigitChar(n)] else Decimal(n / 10) + [DigitChar(n % 10)]
  }

  /** The value of a string of decimal digits, most significant first. */
  function DigitsValue(s: string): nat
    requires AllDigits(s)
    decreases |s|
  {
    if |s| == 0 then 0 else DigitsValue(s[..|s| - 1]) * 10 + DigitValue(s[|s| - 1])
  }

  /** The longest prefix of `s` made of decimal digits. */
  function DigitPrefix(s: string): (r: string)
    ensures AllDigits(r) && r <= s
    ensures |r| < |s| ==> !IsDigit(s[|r|])
    decreases |s|
  {
    if |s| > 0 && IsDigit(s[0]) then [s[0]] + DigitPrefix(s[1..]) else []
  }

  /** The integer JavaScript's `parseInt` reads from the head of `s` in base
      10: an optional sign, then at least one digit; `None` stands for NaN. */
  function ParseInt(s: string): (r: Option<int>)
    ensures r.None? <==> |DigitPrefix(if |s| > 0 && (s[0] == '-' || s[0] == '+') then s[1..] else s)| == 0
    ensures r.Some? ==>
      var digits := DigitPrefix(if |s| > 0 && (s[0] == '-' || s[0] == '+') then s[1..] else s);
      r.value == if |s| > 0 && s[0] == '-' then -(DigitsValue(digits) as int) else DigitsValue(digits) as int
  {
    var negative := |s| > 0 && s[0] == '-';
    var body := if |s| > 0 && (s[0] == '-' || s[0] == '+') then s[1..] else s;
    var digits := DigitPrefix(body);
    if |digits| == 0 then None
    else if negative then Some(-(DigitsValue(digits) as int))
    else Some(DigitsValue(digits) as int)
  }

  /** `r` is `s` with the `a` at index `i` removed, and no `a` precedes it. */
  predicate RemovesFirstAAt(s: string, r: string, i: int)
  {
    && 0 <= i < |s| && s[i] == 'a' && 'a' !in s[..i]
    && r == s[..i] + s[i + 1..]
  }

  /** `s` with its first `a` removed, as `String.prototype.replace` with a
      one-character string pattern does; unchanged when there is none. */
  function DropFirstA(s: string): (r: string)
    ensures 'a' !in s ==> r == s
    ensures 'a' in s ==> |r| == |s| - 1
    ensures 'a' in s ==> exists i :: RemovesFirstAAt(s, r, i)
    decreases |s|
  {
    if |s| == 0 then []
    else if s[0] == 'a' then
      assert RemovesFirstAAt(s, s[1..], 0);
      s[1..]
    else
      var rest := DropFirstA(s[1..]);
      DropFirstAfter(s, rest);
      [s[0]] + rest
  }

  /** The first `a` of `s` is past its head when the head is not an `a`. */
  lemma DropFirstAfter(s: string, rest: string)
    requires |s| > 0 && s[0] != 'a'
    requires 'a' in s[1..] ==> exists i :: RemovesFirstAAt(s[1..], rest, i)
    ensures 'a' in s ==> exists i :: RemovesFirstAAt(s, [s[0]] + rest, i)
  {
    if 'a' in s {
      var t := s[1..];
      var k :| 0 <= k < |s| && s[k] == 'a';
      assert t[k - 1] == 'a';
      var i :| RemovesFirstAAt(t, rest, i);
      var j := i + 1;
      assert s[..j] == [s[0]] + t[..i];
      assert s[j + 1..] == t[i + 1..];
      assert RemovesFirstAAt(s, [s[0]] + rest, j);
    }
  }

  /** The number the counter recomputation reads from an arc id. */
  function IdNumber(id: ArcId): Option<int>
  {
    ParseInt(DropFirstA(id))
  }

  /** The id the editor gives the arc it creates with counter value `n`. */
  function ArcKey(n: nat): ArcId
  {
    "a" + Decimal(n)
  }

  lemma {:induction false} DigitPrefixOfDigits(s: string, tail: string)
    requires AllDigits(s)
    requires |tail| > 0 ==> !IsDigit(tail[0])
    ensures DigitPrefix(s + tail) == s
    decreases |s|
  {
    if |s| > 0 {
      assert (s + tail)[1..] == s[1..] + tail;
      DigitPrefixOfDigits(s[1..], tail);
    } else {
      assert s + tail == tail;
    }
  }

  lemma {:induction false} DecimalValue(n: nat)
    ensures DigitsValue(Decimal(n)) == n
    decreases n
  {
    if n >= 10 {
      var s := Decimal(n);
      assert s[..|s| - 1] == Decimal(n / 10);
      DecimalValue(n / 10);
    }
  }

  /** Reading back a counter value from the id it produced gives the value. */
  lemma ArcKeyNumber(n: nat)
    ensures IdNumber(ArcKey(n)) == Some(n)
  {
    var d := Decimal(n);
    DropLeadingA(d);
    ParseDigits(d);
    DecimalValue(n);
  }

  lemma DropLeadingA(d: string)
    ensures DropFirstA("a" + d) == d
  {
    assert ("a" + d)[1..] == d;
  }

  /** A non-empty run of digits reads back as its value. */
  lemma ParseDigits(d: string)
    requires |d| > 0 && AllDigits(d)
    ensures ParseInt(d) == Some(DigitsValue(d) as int)
  {
    assert IsDigit(d[0]);
    assert d[0] != '-' && d[0] != '+';
    assert d + [] == d;
    DigitPrefixOfDigits(d, []);
    assert DigitPrefix(d) == d;
  }

  /** Distinct counter values give distinct ids. */
  lemma ArcKeyInjective(m: nat, n: nat)
    requires ArcKey(m) == ArcKey(n)
    ensures m == n
  {
    ArcKeyNumber(m);
    ArcKeyNumber(n);
  }

  /** `next` is what the recomputation yields for `ids`: at least 1, above
      every number read from an id, and either 1 or one more than such a
      number. */
  predicate IsNextArcId(ids: set<ArcId>, next: int)
  {
    IsNextAbove(ids, IdNumber, next)
  }

  /** The same, for any way `num` of reading a number from an id. */
  predicate IsNextAbove(ids: set<ArcId>, num: ArcId -> Option<int>, next: int)
  {
    && next >= 1
    && (forall a :: a in ids && num(a).Some? ==> num(a).value < next)
    && (next == 1 || exists a :: a in ids && num(a) == Some(next - 1))
  }

  /** The counter recomputation after a net is loaded: start at 1 and, for
      each arc id whose number `n` is at least the running value, move to
      `n + 1`. Ids are visited in an arbitrary order; the result does not
      depend on it. */
  method RecomputeNextArcId(arcs: map<ArcId, Arc>) returns (next: int)
    ensures IsNextArcId(arcs.Keys, next)
  {
    next := RecomputeOver(arcs.Keys, IdNumber);
  }

  /** The recomputation's loop, for any way `num` of reading a number from
      an id. */
  method RecomputeOver(ids: set<ArcId>, num: ArcId -> Option<int>) returns (next: int)
    ensures IsNextAbove(ids, num, next)
  {
    next := 1;
    var seen: set<ArcId> := {};
    var todo := ids;
    while todo != {}
      invariant seen + todo == ids
      invariant IsNextAbove(seen, num, next)
      decreases |todo|
    {
      var a :| a in todo;
      var n := num(a);
      var next' := if n.Some? && n.value >= next then n.value + 1 else next;
      RecomputeStep(seen, a, num, next, next');
      next := next';
      seen := seen + {a};
      todo := todo - {a};
    }
  }

  /** One id's turn in the recomputation keeps the running value right for
      the ids seen so far. */
  lemma RecomputeStep(seen: set<ArcId>, a: ArcId, num: ArcId -> Option<int>, next: int, next': int)
    requires IsNextAbove(seen, num, next)
    requires next' == if num(a).Some? && num(a).value >= next then num(a).value + 1 else next
    ensures IsNextAbove(seen + {a}, num, next')
  {
    if next' != next {
      assert a in seen + {a} && num(a) == Some(next' - 1);
    } else if next != 1 {
      var b :| b in seen && num(b) == Some(next - 1);
      assert b in seen + {a};
    }
  }

  /** Once the counter has been recomputed, no id it will hand out is taken. */
  lemma FreshAfterRecompute(arcs: map<ArcId, Arc>, next: int, n: nat)
    requires IsNextArcId(arcs.Keys, next) && n >= next
    ensures ArcKey(n) !in arcs
  {
    ArcKeyNumber(n);
  }

  /** The recomputed counter is the least value above every number read
      from an id: any bound of at least 1 above them all is at least it. */
  lemma NextArcIdIsLeast(ids: set<ArcId>, next: int, bound: int)
    requires IsNextArcId(ids, next)
    requires bound >= 1 && forall a :: a in ids && IdNumber(a).Some? ==> IdNumber(a).value < bound
    ensures next <= bound
  {
    if next != 1 {
      var a :| a in ids && IdNumber(a) == Some(next - 1);
    }
  }
}
