/** Byte strings, the order of Go's bytes.Compare, separators, and decimal text. */
module Bytes {

  newtype byte = b: int | 0 <= b < 256
  type bytes = seq<byte>

  datatype Option<+T> = None | Some(value: T)

  const TAB: byte := 9
  const NEWLINE: byte := 10
  const CR: byte := 13
  const SPACE: byte := 32
  const COMMA: byte := 44
  const DASH: byte := 45
  const COLON: byte := 58

  const UINT32: nat := 0x1_0000_0000

  /** A number kept in 32 bits: itself exactly when it fits. */
  function Wrap32(n: nat): (w: nat)
    ensures w == n <==> n < UINT32
  {
    n % 0x1_0000_0000
  }

  lemma {:induction false} AddWraps(n: nat, k: nat)
    ensures (n + k * 0x1_0000_0000) % 0x1_0000_0000 == n % 0x1_0000_0000
  {
    if k > 0 {
      AddWraps(n, k - 1);
      var m := n + (k - 1) * 0x1_0000_0000;
      assert n + k * 0x1_0000_0000 == m + 0x1_0000_0000;
    }
  }

  /** It does not matter whether a sum is cut to 32 bits on the way. */
  lemma SumWraps(a: nat, b: nat)
    ensures Wrap32(Wrap32(a) + b) == Wrap32(a + b)
  {
    AddWraps(a % 0x1_0000_0000 + b, a / 0x1_0000_0000);
  }

  function Sum(ns: seq<nat>): nat
  {
    if ns == [] then 0 else ns[0] + Sum(ns[1..])
  }

  lemma {:induction false} SumAppend(ns: seq<nat>, n: nat)
    ensures Sum(ns + [n]) == Sum(ns) + n
  {
    if ns == [] {
      assert Sum([n]) == n + Sum([]);
    } else {
      assert (ns + [n])[1..] == ns[1..] + [n];
      SumAppend(ns[1..], n);
    }
  }

  /** Element k of a list in the other order, and what is left of both without it. */
  lemma FindPermuted<T>(a: seq<T>, b: seq<T>, k: nat) returns (l: nat)
    requires multiset(a) == multiset(b) && k < |a|
    ensures l < |b| && b[l] == a[k]
    ensures multiset(a[..k] + a[k + 1..]) == multiset(b[..l] + b[l + 1..])
  {
    assert a[k] in multiset(a);
    assert a[k] in b;
    l :| 0 <= l < |b| && b[l] == a[k];
    MultisetWithout(a, k);
    MultisetWithout(b, l);
  }

  lemma PermutedLength<T>(a: seq<T>, b: seq<T>)
    requires multiset(a) == multiset(b)
    ensures |a| == |b|
  {
    assert |multiset(a)| == |a| && |multiset(b)| == |b|;
  }

  /** Element i of a list that x was put into. */
  function Shifted<T>(s: seq<T>, at: nat, x: T, i: nat): T
    requires at <= |s| && i <= |s|
  {
    if i < at then s[i] else if i == at then x else s[i - 1]
  }

  lemma Inserted<T>(s: seq<T>, at: nat, x: T)
    requires at <= |s|
    ensures var longer := s[..at] + [x] + s[at..];
            && multiset(longer) == multiset(s) + multiset{x} && |longer| == |s| + 1
            && forall i: nat :: i <= |s| ==> longer[i] == Shifted(s, at, x, i)
  {
    assert s == s[..at] + s[at..];
  }

  lemma MultisetWithout<T>(s: seq<T>, k: nat)
    requires k < |s|
    ensures multiset(s[..k] + s[k + 1..]) == multiset(s) - multiset{s[k]}
  {
    assert s == s[..k] + [s[k]] + s[k + 1..];
  }

  // ---------- Order ----------

  /** bytes.Compare(a, b) < 0 */
  predicate Less(a: bytes, b: bytes)
  {
    b != [] && (a == [] || a[0] < b[0] || (a[0] == b[0] && Less(a[1..], b[1..])))
  }

  predicate Leq(a: bytes, b: bytes)
  {
    !Less(b, a)
  }

  /** The order of dictionaries: a proper prefix comes first, and otherwise the first byte that differs decides. */
  lemma {:induction false} LessExactly(a: bytes, b: bytes)
    ensures Less(a, b) <==>
              || (|a| < |b| && a == b[..|a|])
              || exists k :: 0 <= k < |a| && k < |b| && a[..k] == b[..k] && a[k] < b[k]
  {
    if a != [] && b != [] && a[0] == b[0] {
      LessExactly(a[1..], b[1..]);
      PrefixTail(a, b);
      forall k | 0 < k < |a| && k < |b|
        ensures a[..k] == b[..k] <==> a[1..][..k - 1] == b[1..][..k - 1]
      {
        PrefixTail(a[..k], b[..k]);
        assert a[..k][1..] == a[1..][..k - 1] && b[..k][1..] == b[1..][..k - 1];
      }
      if k :| 0 <= k < |a| - 1 && k < |b| - 1 && a[1..][..k] == b[1..][..k] && a[1..][k] < b[1..][k] {
        assert a[..k + 1] == b[..k + 1] && a[k + 1] < b[k + 1];
      }
      if k :| 0 <= k < |a| && k < |b| && a[..k] == b[..k] && a[k] < b[k] {
        assert k > 0 && a[1..][..k - 1] == b[1..][..k - 1] && a[1..][k - 1] < b[1..][k - 1];
      }
    } else if a != [] && b != [] {
      if a[0] < b[0] {
        assert a[..0] == b[..0];
      }
      forall k | 0 < k < |a| && k < |b|
        ensures a[..k] != b[..k]
      {
        assert a[..k][0] != b[..k][0];
      }
    }
  }

  lemma PrefixTail(a: bytes, b: bytes)
    requires a != [] && b != [] && a[0] == b[0]
    ensures |a| <= |b| ==> (a == b[..|a|] <==> a[1..] == b[1..][..|a| - 1])
    ensures |a| == |b| ==> (a == b <==> a[1..] == b[1..])
  {
    assert a == [a[0]] + a[1..] && b == [b[0]] + b[1..];
    if |a| <= |b| {
      assert b[..|a|] == [b[0]] + b[1..][..|a| - 1];
    }
  }

  lemma {:induction false} LessIrreflexive(a: bytes)
    ensures !Less(a, a)
  {
    if a != [] {
      LessIrreflexive(a[1..]);
    }
  }

  lemma {:induction false} LessTotal(a: bytes, b: bytes)
    ensures a == b || Less(a, b) || Less(b, a)
  {
    if a != [] && b != [] && a[0] == b[0] {
      LessTotal(a[1..], b[1..]);
      if a[1..] == b[1..] {
        assert a == [a[0]] + a[1..] == b;
      }
    }
  }

  lemma {:induction false} LessTransitive(a: bytes, b: bytes, c: bytes)
    requires Less(a, b) && Less(b, c)
    ensures Less(a, c)
  {
    if a != [] && a[0] == b[0] && b[0] == c[0] {
      LessTransitive(a[1..], b[1..], c[1..]);
    }
  }

  lemma LeqTransitive(a: bytes, b: bytes, c: bytes)
    requires Leq(a, b) && Leq(b, c)
    ensures Leq(a, c)
  {
    LessTotal(a, b);
    LessTotal(b, c);
    if Less(c, a) {
      if a == b || b == c {
      } else {
        LessTransitive(a, b, c);
        LessTransitive(c, a, c);
        LessIrreflexive(c);
      }
    }
  }

  lemma LeqReflexive(a: bytes)
    ensures Leq(a, a)
  {
    LessIrreflexive(a);
  }

  lemma LeqOfLess(a: bytes, b: bytes)
    requires Less(a, b)
    ensures Leq(a, b) && a != b
  {
    if Less(b, a) {
      LessTransitive(a, b, a);
    }
    LessIrreflexive(a);
  }

  lemma LessOfLeq(a: bytes, b: bytes)
    requires Leq(a, b) && a != b
    ensures Less(a, b)
  {
    LessTotal(a, b);
  }

  // ---------- Splitting at a separator ----------

  /** Position of the first `sep`, or |s| when there is none. */
  function IndexOf(s: bytes, sep: byte): (i: nat)
    ensures i <= |s|
    ensures i < |s| ==> s[i] == sep
    ensures sep !in s[..i]
  {
    if s == [] || s[0] == sep then 0
    else
      var i := IndexOf(s[1..], sep) + 1;
      assert s[..i] == [s[0]] + s[1..][..i - 1];
      i
  }

  lemma {:induction false} IndexOfSep(a: bytes, sep: byte, rest: bytes)
    requires sep !in a
    ensures IndexOf(a + [sep] + rest, sep) == |a|
    ensures (a + [sep] + rest)[..|a|] == a
    ensures (a + [sep] + rest)[|a| + 1..] == rest
  {
    if a != [] {
      IndexOfSep(a[1..], sep, rest);
      assert (a + [sep] + rest)[1..] == a[1..] + [sep] + rest;
    }
  }

  lemma IndexOfNone(a: bytes, sep: byte)
    ensures sep !in a <==> IndexOf(a, sep) == |a|
  {
    assert a[..|a|] == a;
  }

  /** bytes.Split(s, sep) for a one-byte separator: never empty. */
  function Split(s: bytes, sep: byte): (parts: seq<bytes>)
    ensures |parts| >= 1
    decreases |s|
  {
    var i := IndexOf(s, sep);
    if i == |s| then [s] else [s[..i]] + Split(s[i + 1..], sep)
  }

  /** Elements written one after another with a separator between two of them. */
  function Join(parts: seq<bytes>, sep: byte): bytes
  {
    if parts == [] then []
    else if |parts| == 1 then parts[0]
    else parts[0] + [sep] + Join(parts[1..], sep)
  }

  lemma SplitWhole(s: bytes, sep: byte)
    requires IndexOf(s, sep) == |s|
    ensures Split(s, sep) == [s] && Join([s], sep) == s
  {
  }

  lemma SplitAtFirst(s: bytes, sep: byte)
    requires IndexOf(s, sep) < |s|
    ensures Split(s, sep) == [s[..IndexOf(s, sep)]] + Split(s[IndexOf(s, sep) + 1..], sep)
  {
  }

  lemma JoinFirst(first: bytes, parts: seq<bytes>, sep: byte)
    requires parts != []
    ensures Join([first] + parts, sep) == first + [sep] + Join(parts, sep)
  {
    assert ([first] + parts)[1..] == parts;
  }

  lemma {:induction false} SplitPartsClean(s: bytes, sep: byte)
    ensures forall p :: p in Split(s, sep) ==> sep !in p
    decreases |s|
  {
    var i := IndexOf(s, sep);
    if i < |s| {
      SplitPartsClean(s[i + 1..], sep);
    } else {
      IndexOfNone(s, sep);
    }
  }

  lemma SplitStep(part: bytes, sep: byte, rest: bytes)
    requires sep !in part
    ensures Split(part + [sep] + rest, sep) == [part] + Split(rest, sep)
  {
    IndexOfSep(part, sep, rest);
  }

  lemma {:induction false} SplitOfCleanJoin(parts: seq<bytes>, sep: byte)
    requires parts != []
    requires forall p :: p in parts ==> sep !in p
    ensures Split(Join(parts, sep), sep) == parts
  {
    if |parts| == 1 {
      IndexOfNone(parts[0], sep);
    } else {
      SplitStep(parts[0], sep, Join(parts[1..], sep));
      SplitOfCleanJoin(parts[1..], sep);
    }
  }

  /** Joining then splitting gives the parts back exactly when there is one and none holds the separator. */
  lemma SplitJoinExactly(parts: seq<bytes>, sep: byte)
    ensures Split(Join(parts, sep), sep) == parts
            <==> parts != [] && forall p :: p in parts ==> sep !in p
  {
    if parts != [] && forall p :: p in parts ==> sep !in p {
      SplitOfCleanJoin(parts, sep);
    }
    if Split(Join(parts, sep), sep) == parts {
      SplitPartsClean(Join(parts, sep), sep);
    }
  }

  // ---------- Decimal text ----------

  predicate IsDigit(b: byte)
  {
    48 <= b <= 57
  }

  function Digit(n: nat): (d: byte)
    requires n < 10
    ensures IsDigit(d)
  {
    (48 + n) as byte
  }

  /** The text fmt prints for %d of a number that is not negative. */
  function Dec(n: nat): (text: bytes)
    ensures text != []
    ensures forall i :: 0 <= i < |text| ==> IsDigit(text[i])
  {
    if n < 10 then [Digit(n)] else Dec(n / 10) + [Digit(n % 10)]
  }

  /** The number fmt scans for %d. */
  function ParseDec(text: bytes): nat
    requires forall i :: 0 <= i < |text| ==> IsDigit(text[i])
  {
    if text == [] then 0
    else
      var last := text[|text| - 1];
      assert IsDigit(last);
      ParseDec(text[..|text| - 1]) * 10 + (last as int - 48)
  }

  lemma {:induction false} ParseDecOfDec(n: nat)
    ensures ParseDec(Dec(n)) == n
  {
    if n < 10 {
      assert Dec(n)[..|Dec(n)| - 1] == [];
    } else {
      ParseDecOfDec(n / 10);
      assert Dec(n)[..|Dec(n)| - 1] == Dec(n / 10);
    }
  }

  /** A digit behind a number is worth itself, and the number ten times as much. */
  lemma ParseDecAppend(text: bytes, digit: nat)
    requires digit < 10 && forall i :: 0 <= i < |text| ==> 48 <= text[i] <= 57
    ensures ParseDec([]) == 0
    ensures ParseDec(text + [(48 + digit) as byte]) == 10 * ParseDec(text) + digit
  {
    var longer := text + [(48 + digit) as byte];
    assert forall i :: 0 <= i < |longer| ==> IsDigit(longer[i]);
    assert longer[..|text|] == text;
  }

  /** A number is printed without leading zeros. */
  lemma {:induction false} NoLeadingZero(n: nat)
    ensures Dec(n)[0] == 48 ==> n == 0
    ensures forall i :: 0 <= i < |Dec(n)| ==> 48 <= Dec(n)[i] <= 57
  {
    if n >= 10 {
      NoLeadingZero(n / 10);
    }
  }

  lemma DecInjective(m: nat, n: nat)
    requires Dec(m) == Dec(n)
    ensures m == n
  {
    ParseDecOfDec(m);
    ParseDecOfDec(n);
  }

  /** Position of the last dash plus one, or 0 when there is none. */
  function AfterLastDash(s: bytes): nat
  {
    if s == [] then 0
    else if s[|s| - 1] == DASH then |s|
    else AfterLastDash(s[..|s| - 1])
  }

  lemma {:induction false} AfterLastDashAt(x: bytes, digits: bytes)
    requires forall i :: 0 <= i < |digits| ==> IsDigit(digits[i])
    ensures AfterLastDash(x + [DASH] + digits) == |x| + 1
  {
    var s := x + [DASH] + digits;
    if digits != [] {
      assert s[|s| - 1] == digits[|digits| - 1];
      assert s[..|s| - 1] == x + [DASH] + digits[..|digits| - 1];
      AfterLastDashAt(x, digits[..|digits| - 1]);
    }
  }

  /** x-<m> and y-<n> are the same text only when x == y and m == n: decimals hold no dash. */
  lemma DashDecInjective(x: bytes, m: nat, y: bytes, n: nat)
    ensures x + [DASH] + Dec(m) == y + [DASH] + Dec(n) <==> x == y && m == n
  {
    var s, t := x + [DASH] + Dec(m), y + [DASH] + Dec(n);
    if s == t {
      AfterLastDashAt(x, Dec(m));
      AfterLastDashAt(y, Dec(n));
      assert x == s[..|x|] == t[..|y|] == y;
      assert Dec(m) == s[|x| + 1..] == t[|y| + 1..] == Dec(n);
      DecInjective(m, n);
    }
  }

  // ---------- Orders in which a map is gone through ----------

  /** Every key once. */
  ghost predicate Enumerates(order: seq<bytes>, keys: set<bytes>)
  {
    && (forall i, j :: 0 <= i < j < |order| ==> order[i] != order[j])
    && (forall id :: id in order <==> id in keys)
  }

  lemma EnumeratedNames(order: seq<bytes>, keys: set<bytes>)
    requires Enumerates(order, keys)
    ensures forall id :: id in order ==> id in keys
  {
  }

  lemma NothingEnumerated(order: seq<bytes>, keys: set<bytes>)
    requires Enumerates(order, keys)
    ensures order == [] <==> keys == {}
  {
    if order != [] {
      assert order[0] in keys;
    }
  }

  lemma EnumeratesWithout(order: seq<bytes>, k: nat, keys: set<bytes>)
    requires k < |order| && Enumerates(order, keys)
    ensures Enumerates(order[..k] + order[k + 1..], keys - {order[k]})
  {
    var rest := order[..k] + order[k + 1..];
    assert forall i :: 0 <= i < |rest| ==> rest[i] == order[if i < k then i else i + 1];
    forall id
      ensures id in rest <==> id in keys - {order[k]}
    {
      if id in keys && id != order[k] {
        var i :| 0 <= i < |order| && order[i] == id;
        assert rest[if i < k then i else i - 1] == id;
      }
    }
  }

  lemma {:induction false} EnumeratesCount(order: seq<bytes>, keys: set<bytes>)
    requires Enumerates(order, keys)
    ensures |order| == |keys|
  {
    NothingEnumerated(order, keys);
    if order != [] {
      EnumeratesWithout(order, 0, keys);
      EnumeratesCount(order[..0] + order[1..], keys - {order[0]});
      assert order[0] in keys;
    }
  }
}
