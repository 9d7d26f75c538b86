/**
  The compile-time string `ct_str<N>`: a fixed-size array of N chars whose
  last char is normally the terminator of the literal it was built from.
  The size N is a template parameter of `ct_str<N>`; here it is the length
  of the sequence, so a `ct_str<N>` is a `seq<char>` of length N.
*/
module CompileTimeString {

  /** `ct_str<N>` for N >= 1 (a zero-length char array is ill-formed). */
  type CtStr = s: seq<char> | 1 <= |s| witness ['\0']

  /**
    `operator[](n)` and `at<I>()`: the n-th stored char. Reading at or past
    N is undefined, so n must be below N.
  */
  function At(s: CtStr, n: nat): (c: char)
    requires n < |s|
    ensures c == s[n]
  {
    s[n]
  }

  /**
    Construction from a char array `const char (&)[N]`: the array's N chars
    (terminator included) are copied.
  */
  function FromArray(str: seq<char>): (r: CtStr)
    requires 1 <= |str|
    ensures |r| == |str|
    ensures forall i :: 0 <= i < |r| ==> At(r, i) == str[i]
  {
    str
  }

  /**
    Construction from a `string_view` into a `ct_str<n>`: exactly n chars
    are copied from the front of the view, whatever its own length. Reading
    past the end of the view is undefined, so the view must hold n chars.
  */
  function FromView(view: seq<char>, n: nat): (r: CtStr)
    requires 1 <= n <= |view|
    ensures |r| == n
    ensures forall i :: 0 <= i < n ==> At(r, i) == view[i]
  {
    view[..n]
  }

  /** Copy construction: all N chars of the source are copied. */
  function Copy(str: CtStr): (r: CtStr)
    ensures Equals(r, str)
  {
    str[..]
  }

  /**
    Copy assignment `operator=(const ct_str<N>&)`: the target keeps its size
    and takes the source's chars; the value of `*this` afterwards is returned.
  */
  function Assign(target: CtStr, str: CtStr): (r: CtStr)
    requires |target| == |str|
    ensures |r| == |target|
    ensures Equals(r, str)
  {
    str[..]
  }

  /** Assignment from a char array of the same size N. */
  function AssignArray(target: CtStr, str: seq<char>): (r: CtStr)
    requires |target| == |str|
    ensures |r| == |target|
    ensures forall i :: 0 <= i < |r| ==> At(r, i) == str[i]
  {
    str[..]
  }

  /**
    `operator==`: a same-size comparison compares all N chars element-wise;
    the overload for a different size N2 always answers false.
  */
  function Equals(a: CtStr, b: CtStr): (r: bool)
    ensures r <==> a == b
  {
    if |a| != |b| then false
    else forall i :: 0 <= i < |a| ==> a[i] == b[i]
  }

  /**
    `size()`: the char count without the terminator, N - 1; it is always a
    valid position, the one of the last stored char.
  */
  function Size(s: CtStr): (n: nat)
    ensures n < |s|
  {
    |s| - 1
  }

  /**
    For a literal whose only NUL is its terminator, `size()` is the length
    of the C string: every char before position `size()` is not NUL, and
    the char at `size()` is the terminator.
  */
  lemma LiteralSize(str: seq<char>)
    requires 1 <= |str| && str[|str| - 1] == '\0'
    requires forall i :: 0 <= i < |str| - 1 ==> str[i] != '\0'
    ensures var r := FromArray(str);
      At(r, Size(r)) == '\0' && forall i :: 0 <= i < Size(r) ==> At(r, i) != '\0'
  {
  }

  /**
    `operator+`: a `ct_str<N+N2-1>` holding the first N-1 chars of `a` (its
    terminator dropped) followed by all N2 chars of `b`.
  */
  function Concat(a: CtStr, b: CtStr): (r: CtStr)
    ensures |r| == |a| + |b| - 1
    ensures forall i :: 0 <= i < |a| - 1 ==> At(r, i) == a[i]
    ensures forall j :: 0 <= j < |b| ==> At(r, |a| - 1 + j) == b[j]
  {
    a[..|a| - 1] + b
  }

  /** The free `operator+(ct_str<S1>, const char (&)[S2])`. */
  function ConcatLiteral(fs: CtStr, str: seq<char>): (r: CtStr)
    requires 1 <= |str|
    ensures |r| == |fs| + |str| - 1
    ensures r[..|fs| - 1] == fs[..|fs| - 1]
    ensures r[|fs| - 1..] == str
  {
    Concat(fs, FromArray(str))
  }

  /** The free `operator+(const char (&)[S2], ct_str<S1>)`. */
  function LiteralConcat(str: seq<char>, fs: CtStr): (r: CtStr)
    requires 1 <= |str|
    ensures |r| == |str| + |fs| - 1
    ensures r[..|str| - 1] == str[..|str| - 1]
    ensures r[|str| - 1..] == fs
  {
    Concat(FromArray(str), fs)
  }

  /** The free `operator==(ct_str<S1>, const char (&)[S2])`. */
  function EqualsLiteral(fs: CtStr, str: seq<char>): (r: bool)
    requires 1 <= |str|
    ensures r <==> fs == str
  {
    Equals(fs, FromArray(str))
  }

  /** The free `operator==(const char (&)[S2], ct_str<S1>)`. */
  function LiteralEquals(str: seq<char>, fs: CtStr): (r: bool)
    requires 1 <= |str|
    ensures r <==> str == fs
  {
    Equals(FromArray(str), fs)
  }

  /** Same-size equality is reflexive, symmetric and transitive. */
  lemma EqualsIsEquivalence(a: CtStr, b: CtStr, c: CtStr)
    ensures Equals(a, a)
    ensures Equals(a, b) <==> Equals(b, a)
    ensures Equals(a, b) && Equals(b, c) ==> Equals(a, c)
  {
  }

  /** Strings of different sizes never compare equal. */
  lemma DifferentSizesDiffer(a: CtStr, b: CtStr)
    requires |a| != |b|
    ensures !Equals(a, b)
  {
  }

  /** Concatenation adds sizes: one terminator is dropped. */
  lemma ConcatSize(a: CtStr, b: CtStr)
    ensures Size(Concat(a, b)) == Size(a) + Size(b)
    ensures Size(a) + 1 == |a|
  {
  }

  /**
    Reading `a + b` at position n reads `a` below `a.size()` and `b` from
    there on: the terminator of `a` is overwritten by the first char of `b`.
  */
  lemma ConcatAt(a: CtStr, b: CtStr, n: nat)
    requires n < |Concat(a, b)|
    ensures n < Size(a) ==> At(Concat(a, b), n) == At(a, n)
    ensures Size(a) <= n ==> At(Concat(a, b), n) == At(b, n - Size(a))
  {
  }

  /** Concatenation is associative. */
  lemma ConcatAssociative(a: CtStr, b: CtStr, c: CtStr)
    ensures Concat(Concat(a, b), c) == Concat(a, Concat(b, c))
  {
    var ab := Concat(a, b);
    assert ab[..|ab| - 1] == a[..|a| - 1] + b[..|b| - 1];
    var bc := Concat(b, c);
    assert bc == b[..|b| - 1] + c;
  }
}
