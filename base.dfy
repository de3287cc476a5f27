/** Machine conventions shared by the system-call layer: optional values,
    bytes, 32-bit words and the C `int` view of a word, list search and list
    removal. */
module Base {

  datatype Option<+T> = None | Some(value: T)

  /** One byte of user memory. */
  type Byte = b: int | 0 <= b < 256

  /** Width of an argument word and of the result register on x86. */
  const WORD_BYTES: nat := 4
  const WORD_MODULUS: int := 0x1_0000_0000
  const INT32_MIN: int := -0x8000_0000
  const INT32_MAX: int := 0x7FFF_FFFF

  predicate IsWord(w: int) { 0 <= w < WORD_MODULUS }

  predicate IsInt32(x: int) { INT32_MIN <= x <= INT32_MAX }

  /** Storing a value into a 32-bit register (`f->eax = ...`, a cast to
      `unsigned`): two's-complement truncation. */
  function ToWord(x: int): (w: int)
    ensures IsWord(w)
    ensures 0 <= x < WORD_MODULUS ==> w == x
    ensures INT32_MIN <= x < 0 ==> w == x + WORD_MODULUS
  {
    x % WORD_MODULUS
  }

  /** Reading a 32-bit word as a C `int`; the inverse of ToWord on `int`s. */
  function ToInt32(w: int): (x: int)
    requires IsWord(w)
    ensures IsInt32(x)
    ensures ToWord(x) == w
  {
    if w <= INT32_MAX then w else w - WORD_MODULUS
  }

  lemma Int32RoundTrip(x: int)
    requires IsInt32(x)
    ensures ToInt32(ToWord(x)) == x
  {
  }

  /** A walk of a list from the front that stops at the first element
      carrying key `k`: the index of that element, if there is one. */
  function FindKey(keys: seq<int>, k: int): (r: Option<nat>)
    ensures r.Some? ==> r.value < |keys| && keys[r.value] == k
    ensures r.Some? ==> forall j :: 0 <= j < r.value ==> keys[j] != k
    ensures r.None? <==> forall j :: 0 <= j < |keys| ==> keys[j] != k
  {
    if keys == [] then None
    else if keys[0] == k then Some(0)
    else match FindKey(keys[1..], k)
      case None => None
      case Some(i) => Some(i + 1)
  }

  /** `list_remove` of the element at index `i`: the elements before it keep
      their place, the ones after it move down by one. */
  function RemoveAt<T>(s: seq<T>, i: nat): (r: seq<T>)
    requires i < |s|
    ensures |r| == |s| - 1
    ensures forall j :: 0 <= j < i ==> r[j] == s[j]
    ensures forall j :: i <= j < |r| ==> r[j] == s[j + 1]
    ensures multiset(r) + multiset{s[i]} == multiset(s)
  {
    assert s == s[..i] + [s[i]] + s[i + 1..];
    s[..i] + s[i + 1..]
  }
}
