/** Values shared by every part of the model. A Dafny `char` stands for a C++ `char`. */
module Common {

  datatype Option<+T> = None | Some(value: T)

  /** A C string without its terminator: any text that holds no NUL. */
  type CString = s: string | '\0' !in s

  const TWO_TO_THE_64: nat := 0x1_0000_0000_0000_0000

  type u64 = x: nat | x < 0x1_0000_0000_0000_0000

  lemma Associates(a: string, b: string, c: string)
    ensures a + b + c == a + (b + c)
  {
  }

  lemma PrefixOfPrefix(a: string, b: string, s: string)
    requires a + b <= s
    ensures a <= s
  {
    assert s[..|a|] == (a + b)[..|a|] == a;
  }

  lemma {:induction false} SetSize<T>(a: set<T>, b: set<T>)
    requires a <= b
    ensures |a| <= |b|
  {
    if a != {} {
      var x :| x in a;
      SetSize(a - {x}, b - {x});
    }
  }
}
