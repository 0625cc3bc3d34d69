/** The few C string operations the models need. */
module CStrings {
  const NUL := '\0'

  /** A string as C sees it: no terminator inside. */
  predicate IsText(s: string) {
    NUL !in s
  }

  /** The text starting at `at` in a character buffer, up to the terminator. */
  function TextAt(buf: seq<char>, at: nat): (text: string)
    requires at <= |buf|
    decreases |buf| - at
  {
    if at == |buf| || buf[at] == NUL then "" else [buf[at]] + TextAt(buf, at + 1)
  }

  /** `text` lies in the buffer at `at`, with its terminator behind it. */
  predicate Holds(buf: seq<char>, at: nat, text: string) {
    && at + |text| < |buf|
    && buf[at..at + |text|] == text
    && buf[at + |text|] == NUL
    && IsText(text)
  }

  lemma {:induction false} TextIsHeld(buf: seq<char>, at: nat, text: string)
    requires Holds(buf, at, text)
    ensures TextAt(buf, at) == text
    decreases |text|
  {
    if text != "" {
      assert buf[at] == buf[at..at + |text|][0] == text[0];
      assert buf[at + 1..at + |text|] == buf[at..at + |text|][1..] == text[1..];
      TextIsHeld(buf, at + 1, text[1..]);
    }
  }

  /** strcmp: the sign of the first difference. */
  function Compare(a: string, b: string): (sign: int)
    ensures -1 <= sign <= 1
  {
    if a == [] && b == [] then 0
    else if a == [] then -1
    else if b == [] then 1
    else if a[0] < b[0] then -1
    else if a[0] > b[0] then 1
    else Compare(a[1..], b[1..])
  }

  lemma {:induction false} CompareZero(a: string, b: string)
    ensures Compare(a, b) == 0 <==> a == b
  {
    if a != [] && b != [] {
      CompareZero(a[1..], b[1..]);
      assert a == [a[0]] + a[1..] && b == [b[0]] + b[1..];
    }
  }
}
