/** Values as the formatter sees them.

    The formatter only ever looks at an argument through its text, its
    JavaScript truthiness, and whether it has a `length`, which decides
    whether alignment can pad it.
    The model gives a `length` to strings only: it stands for numbers and
    other values without one, and leaves out arrays, functions and objects
    that carry a `length` of their own. The source takes the text from
    `value.toString()` without a format token and from `value + ''` with
    one; a `Value` has a single text, so objects whose `valueOf` disagrees
    with their `toString` are left out. */
module Values {

  datatype Option<+T> = None | Some(value: T)

  /** A JavaScript value: a string, or any other value (a number, an object
      with its own toString) given by its text and its truthiness. */
  datatype Value = Str(text: string) | NonStr(text: string, truthy: bool)
  {
    /** JavaScript truthiness: a string is truthy when it is not empty. */
    predicate Truthy() {
      match this
      case Str(s) => s != []
      case NonStr(_, t) => t
    }
  }

  /** A string of `n` zero characters. */
  function Zeros(n: nat): (r: string)
    ensures |r| == n
  {
    if n == 0 then [] else Zeros(n - 1) + "0"
  }

  lemma {:induction false} ZerosAt(n: nat, k: nat)
    requires k < n
    ensures Zeros(n)[k] == '0'
  {
    if k < n - 1 {
      ZerosAt(n - 1, k);
    }
  }

  lemma {:induction false} ZerosAdd(a: nat, b: nat)
    ensures Zeros(a) + Zeros(b) == Zeros(a + b)
    decreases b
  {
    if b == 0 {
      assert Zeros(a) + [] == Zeros(a);
    } else {
      ZerosAdd(a, b - 1);
      AppendAssoc(Zeros(a), Zeros(b - 1), "0");
    }
  }

  lemma {:induction false} AppendAssoc(a: string, b: string, c: string)
    ensures (a + b) + c == a + (b + c)
  {
  }
}
