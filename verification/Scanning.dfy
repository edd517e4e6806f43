/** Where the strings of a text are: the one thing that a look at the bytes alone must know. */
module Scanning {
  import opened Bytes

  datatype Mode = Outside | Inside | Escaped

  function ModeAfter(m: Mode, b: byte): Mode {
    match m
    case Outside => if b == '"' as int then Inside else Outside
    case Inside => if b == '"' as int then Outside else if b == '\\' as int then Escaped else Inside
    case Escaped => Inside
  }

  function ModeBehind(m: Mode, t: bytes): Mode
    decreases |t|
  {
    if t == [] then m else ModeBehind(ModeAfter(m, t[0]), t[1..])
  }

  lemma {:induction false} ModeBehindBoth(m: Mode, a: bytes, b: bytes)
    ensures ModeBehind(m, a + b) == ModeBehind(ModeBehind(m, a), b)
    decreases |a|
  {
    if a == [] {
      assert a + b == b;
    } else {
      assert (a + b)[1..] == a[1..] + b;
      ModeBehindBoth(ModeAfter(m, a[0]), a[1..], b);
    }
  }

  /** The bytes of `t` before the one at `k` end outside the strings. */
  predicate OutsideAt(t: bytes, k: nat)
    requires k <= |t|
  {
    ModeBehind(Outside, t[..k]).Outside?
  }
}
