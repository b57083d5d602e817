/** NUL-terminated byte strings and the order `strcmp` puts on them. */
module CStrings {
  import opened Options

  /** A character of a C string: any byte but the terminator. */
  type CChar = c: int | 1 <= c <= 255 witness 1

  type CString = seq<CChar>

  /** The answer to a lookup. */
  type Reply = Option<CString>

  datatype Entry = Entry(key: CString, value: CString)

  /** `strcmp`: the difference at the first place where the strings differ, the terminator
      counting as 0. */
  function StrCmp(a: CString, b: CString): int {
    if a == [] then (if b == [] then 0 else 0 - b[0])
    else if b == [] then a[0]
    else if a[0] != b[0] then a[0] - b[0]
    else StrCmp(a[1..], b[1..])
  }

  lemma {:induction false} StrCmpEqual(a: CString, b: CString)
    ensures StrCmp(a, b) == 0 <==> a == b
  {
    if a != [] && b != [] && a[0] == b[0] {
      StrCmpEqual(a[1..], b[1..]);
      assert a == [a[0]] + a[1..] && b == [b[0]] + b[1..];
    }
  }

  lemma {:induction false} StrCmpFlip(a: CString, b: CString)
    ensures StrCmp(a, b) == -StrCmp(b, a)
  {
    if a != [] && b != [] && a[0] == b[0] {
      StrCmpFlip(a[1..], b[1..]);
    }
  }

  lemma {:induction false} StrCmpTrans(a: CString, b: CString, c: CString)
    requires StrCmp(a, b) < 0 && StrCmp(b, c) < 0
    ensures StrCmp(a, c) < 0
  {
    if a != [] && b != [] && c != [] && a[0] == b[0] == c[0] {
      StrCmpTrans(a[1..], b[1..], c[1..]);
    }
  }
}
