/**
  Python-level building blocks used by the spike_interface helpers: optional values,
  the exceptions the helpers raise, the cells stored in tables and channel properties,
  safe list indexing, `list.index`, `str` of an integer and `np.unique`.
 */
module Values {

  datatype Option<T> = None | Some(value: T) {
    function GetOr(default: T): T {
      match this
      case Some(v) => v
      case None => default
    }
  }

  /** The Python exceptions the modelled code can raise. An `assert` statement that fails
      raises AssertionError; `check` names which assertion it was. */
  datatype Error =
    | ValueError
    | NotImplementedError
    | IndexError
    | KeyError
    | AttributeError
    | TypeError
    | ZeroDivisionError
    | AssertionError(check: string)

  /** Normal return, or an exception raised out of the call. */
  datatype Outcome = Pass | Fail(error: Error)

  datatype Result<T> = Ok(value: T) | Err(error: Error)

  /** A table cell or a channel property value: a string, a number, or NaN. */
  datatype Value = Missing | Str(s: string) | Num(n: int)

  /** A dictionary of string-valued keyword arguments, as passed to the container's constructors. */
  type Fields = map<string, string>

  /** `d.get(key, default)` */
  function Get(d: Fields, key: string, default: string): string {
    if key in d then d[key] else default
  }

  predicate Distinct<T(==)>(s: seq<T>) {
    forall i, j :: 0 <= i < j < |s| ==> s[i] != s[j]
  }

  /** `list_get(li, idx, default)`: `li[idx]`, or `default` where Python would raise IndexError.
      Python accepts negative indices down to `-len(li)`, counting from the end. */
  function ListGet<T>(li: seq<T>, idx: int, default: T): (r: T)
    ensures 0 <= idx < |li| ==> r == li[idx]
    ensures -|li| <= idx < 0 ==> r == li[|li| + idx]
    ensures idx >= |li| || idx < -|li| ==> r == default
  {
    if -|li| <= idx < |li| then li[idx % |li|] else default
  }

  /** `s.index(x)`: the position of the first occurrence of `x`. */
  function IndexOf<T(==)>(s: seq<T>, x: T): (i: nat)
    requires x in s
    ensures i < |s| && s[i] == x
    ensures forall k :: 0 <= k < i ==> s[k] != x
  {
    if s[0] == x then 0 else 1 + IndexOf(s[1..], x)
  }

  lemma IndexOfInjective<T>(s: seq<T>, x: T, y: T)
    requires x in s && y in s && x != y
    ensures IndexOf(s, x) != IndexOf(s, y)
  {
  }

  /** Appending to a list does not move the first occurrence of an element already in it. */
  lemma IndexOfPrefix<T>(s: seq<T>, m: nat, x: T)
    requires m <= |s| && x in s[..m]
    ensures IndexOf(s, x) == IndexOf(s[..m], x)
  {
    var i := IndexOf(s[..m], x);
    assert s[i] == x;
  }

  // ---------------------------------------------------------------------------
  // str(n) for integers

  function DigitChar(d: nat): char
    requires d < 10
  {
    "0123456789"[d]
  }

  function DigitValue(c: char): nat {
    if '0' <= c <= '9' then (c - '0') as nat else 0
  }

  /** Decimal rendering of a natural number, most significant digit first. */
  function NatToString(n: nat): (s: string)
    ensures |s| > 0
    ensures forall k :: 0 <= k < |s| ==> '0' <= s[k] <= '9'
    decreases n
  {
    if n < 10 then [DigitChar(n)] else NatToString(n / 10) + [DigitChar(n % 10)]
  }

  /** Reads a string of decimal digits back. */
  function ParseDigits(s: string): nat
    decreases |s|
  {
    if s == [] then 0 else ParseDigits(s[..|s| - 1]) * 10 + DigitValue(s[|s| - 1])
  }

  lemma {:induction false} ParseNatToString(n: nat)
    ensures ParseDigits(NatToString(n)) == n
    decreases n
  {
    var s := NatToString(n);
    if n >= 10 {
      ParseNatToString(n / 10);
      assert s[..|s| - 1] == NatToString(n / 10);
    }
  }

  /** `str(i)` for a Python integer. */
  function IntToString(i: int): (s: string)
    ensures |s| > 0
    ensures s[0] == '-' <==> i < 0
  {
    if i < 0 then "-" + NatToString(-i) else NatToString(i)
  }

  /** Reads `str(i)` back. */
  function ParseInt(s: string): int {
    if |s| > 0 && s[0] == '-' then -(ParseDigits(s[1..]) as int) else ParseDigits(s)
  }

  lemma ParseIntToString(i: int)
    ensures ParseInt(IntToString(i)) == i
  {
    if i < 0 { ParseNegativeToString(i); } else { ParseNonNegativeToString(i); }
  }

  lemma {:induction false} ParseNegativeToString(i: int)
    requires i < 0
    ensures ParseInt(IntToString(i)) == i
  {
    var digits := NatToString(-i);
    var s := IntToString(i);
    assert s == "-" + digits;
    assert s[0] == '-' && s[1..] == digits;
    ParseNatToString(-i);
    assert ParseInt(s) == -(ParseDigits(digits) as int);
  }

  lemma {:induction false} ParseNonNegativeToString(i: int)
    requires i >= 0
    ensures ParseInt(IntToString(i)) == i
  {
    var digits := NatToString(i);
    assert '0' <= digits[0] <= '9';
    ParseNatToString(i);
  }

  /** Distinct integers have distinct names. */
  lemma IntToStringInjective(i: int, j: int)
    requires IntToString(i) == IntToString(j)
    ensures i == j
  {
    ParseIntToString(i);
    ParseIntToString(j);
  }

  /** `str(v)` for a table value; NaN prints as "nan". */
  function ValueToString(v: Value): string {
    match v
    case Str(s) => s
    case Num(n) => IntToString(n)
    case Missing => "nan"
  }

  // ---------------------------------------------------------------------------
  // np.unique on a sequence of integers

  predicate StrictlyIncreasing(s: seq<int>) {
    forall i, j :: 0 <= i < j < |s| ==> s[i] < s[j]
  }

  function InsertSorted(s: seq<int>, x: int): (r: seq<int>)
    requires StrictlyIncreasing(s)
    ensures StrictlyIncreasing(r)
    ensures forall y :: y in r <==> y in s || y == x
  {
    if s == [] then [x]
    else if x < s[0] then [x] + s
    else if x == s[0] then s
    else
      var rest := InsertSorted(s[1..], x);
      assert forall k :: 0 <= k < |rest| ==> s[0] < rest[k] by {
        forall k | 0 <= k < |rest| ensures s[0] < rest[k] {
          assert rest[k] in s[1..] || rest[k] == x;
        }
      }
      [s[0]] + rest
  }

  /** `np.unique(s)`: the distinct elements of `s`, in increasing order. */
  function Unique(s: seq<int>): (r: seq<int>)
    ensures StrictlyIncreasing(r)
    ensures forall y :: y in r <==> y in s
  {
    if s == [] then [] else InsertSorted(Unique(s[..|s| - 1]), s[|s| - 1])
  }

  lemma UniqueNonEmpty(s: seq<int>)
    requires |s| > 0
    ensures |Unique(s)| > 0
  {
    assert s[0] in Unique(s);
  }
}
