/** Small value types and string helpers shared by every module of the model. */
module Common {

  datatype Option<+T> = None | Some(value: T) {
    function GetOr(default: T): T {
      match this
      case Some(v) => v
      case None => default
    }
  }

  /** The outcome of an operation that the source lets raise: `Err` is the raised exception. */
  datatype Result<+T, +E> = Ok(value: T) | Err(error: E)

  function Min(a: int, b: int): int { if a <= b then a else b }

  /** Python's `s.startswith(prefix)`. */
  predicate StartsWith(s: string, prefix: string) {
    |prefix| <= |s| && s[..|prefix|] == prefix
  }

  /** Python's `s.endswith(suffix)`. */
  predicate EndsWith(s: string, suffix: string) {
    |suffix| <= |s| && s[|s| - |suffix|..] == suffix
  }

  /** Python's `s.replace(from, to)` for single characters. */
  function ReplaceChar(s: string, from: char, to: char): (r: string)
    ensures |r| == |s|
    ensures forall i :: 0 <= i < |s| ==> r[i] == (if s[i] == from then to else s[i])
    ensures from != to ==> from !in r
  {
    if s == [] then [] else [if s[0] == from then to else s[0]] + ReplaceChar(s[1..], from, to)
  }

  /** Python's `s.split(c)[0]`: the text before the first `c`, or all of `s` when there is none. */
  function BeforeFirst(s: string, c: char): (r: string)
    ensures StartsWith(s, r)
    ensures c !in r
    ensures r == s || s[|r|] == c
  {
    if s == [] then []
    else if s[0] == c then []
    else [s[0]] + BeforeFirst(s[1..], c)
  }

  function Digit(d: nat): char
    requires d < 10
  {
    "0123456789"[d]
  }

  /** Python's `str(n)` for a natural number: decimal digits, no leading zero. */
  function NatToString(n: nat): (r: string)
    ensures |r| >= 1
    ensures n >= 10 ==> |r| >= 2
    ensures forall i :: 0 <= i < |r| ==> '0' <= r[i] <= '9'
  {
    if n < 10 then [Digit(n)] else NatToString(n / 10) + [Digit(n % 10)]
  }

  lemma DigitInjective(a: nat, b: nat)
    requires a < 10 && b < 10 && Digit(a) == Digit(b)
    ensures a == b
  {
    var ds := "0123456789";
    assert forall i, j :: 0 <= i < j < 10 ==> ds[i] != ds[j];
  }

  /** Distinct numbers print differently, so the ids `"{doc}_{i}"` are pairwise distinct. */
  lemma {:induction false} NatToStringInjective(a: nat, b: nat)
    requires NatToString(a) == NatToString(b)
    ensures a == b
  {
    var sa, sb := NatToString(a), NatToString(b);
    if a < 10 && b < 10 {
      DigitInjective(a, b);
    } else if a >= 10 && b >= 10 {
      assert sa[|sa| - 1] == Digit(a % 10) && sb[|sb| - 1] == Digit(b % 10);
      DigitInjective(a % 10, b % 10);
      assert sa[..|sa| - 1] == NatToString(a / 10);
      assert sb[..|sb| - 1] == NatToString(b / 10);
      NatToStringInjective(a / 10, b / 10);
    } else {
      assert false;
    }
  }

  /** Concatenation regroups freely. */
  lemma AppendAssoc<T>(a: seq<T>, b: seq<T>, c: seq<T>)
    ensures a + b + c == a + (b + c)
  {
  }

  /** A non-empty sequence is its front followed by its last element, in content and as a multiset. */
  lemma InitLast<T>(s: seq<T>)
    requires s != []
    ensures s == s[..|s| - 1] + [s[|s| - 1]]
    ensures multiset(s) == multiset(s[..|s| - 1]) + multiset{s[|s| - 1]}
  {
    assert s == s[..|s| - 1] + [s[|s| - 1]];
  }

  predicate Distinct<T(==)>(s: seq<T>) {
    forall i, j :: 0 <= i < j < |s| ==> s[i] != s[j]
  }

  /** The names `os.listdir` returns for a directory holding `present`, in the enumeration order `order`. */
  function Listing(order: seq<string>, present: set<string>): (r: seq<string>)
    ensures forall n :: n in r <==> n in order && n in present
    ensures Distinct(order) ==> Distinct(r)
  {
    if order == [] then []
    else if order[0] in present then [order[0]] + Listing(order[1..], present)
    else Listing(order[1..], present)
  }

  /** `x` comes before `y` in `order`. */
  predicate Before<T(==)>(order: seq<T>, x: T, y: T) {
    exists a, b :: 0 <= a < b < |order| && order[a] == x && order[b] == y
  }

  /** Putting a name in front keeps every `Before`, and puts that name before every later one. */
  lemma BeforeCons<T>(order: seq<T>, x: T, y: T)
    requires order != []
    ensures Before(order[1..], x, y) ==> Before(order, x, y)
    ensures x == order[0] && y in order[1..] ==> Before(order, x, y)
  {
    if Before(order[1..], x, y) {
      var a, b :| 0 <= a < b < |order| - 1 && order[1..][a] == x && order[1..][b] == y;
      assert order[a + 1] == x && order[b + 1] == y;
    }
    if x == order[0] && y in order[1..] {
      var b :| 0 <= b < |order| - 1 && order[1..][b] == y;
      assert order[b + 1] == y;
    }
  }

  /** The listing keeps the enumeration order: of two listed names, the earlier one comes earlier in `order`. */
  lemma ListingOrder(order: seq<string>, present: set<string>)
    ensures var r := Listing(order, present);
      forall i, j :: 0 <= i < j < |r| ==> Before(order, r[i], r[j])
  {
    forall i, j | 0 <= i < j < |Listing(order, present)|
      ensures Before(order, Listing(order, present)[i], Listing(order, present)[j])
    {
      ListingOrderAt(order, present, i, j);
    }
  }

  lemma {:induction false} ListingOrderAt(order: seq<string>, present: set<string>, i: nat, j: nat)
    requires i < j < |Listing(order, present)|
    ensures Before(order, Listing(order, present)[i], Listing(order, present)[j])
  {
    var r, tail := Listing(order, present), Listing(order[1..], present);
    if order[0] in present {
      assert r == [order[0]] + tail;
      if i == 0 {
        assert r[j] == tail[j - 1] && r[j] in order[1..];
      } else {
        ListingOrderAt(order[1..], present, i - 1, j - 1);
      }
    } else {
      ListingOrderAt(order[1..], present, i, j);
    }
    BeforeCons(order, r[i], r[j]);
  }
}
