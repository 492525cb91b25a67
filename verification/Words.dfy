/** 32-bit words, and block writes to a memory of words or of bytes. */
module Words {

  import opened Ints

  const WORD_LIMIT := LIMIT32

  type Word = U32

  /** Memory with `ws` stored from address `a` upwards. */
  function Write<T>(mem: seq<T>, a: nat, ws: seq<T>): (r: seq<T>)
    requires a + |ws| <= |mem|
    ensures |r| == |mem|
    ensures forall i :: a <= i < a + |ws| ==> r[i] == ws[i - a]
    ensures forall i :: 0 <= i < |mem| && !(a <= i < a + |ws|) ==> r[i] == mem[i]
  {
    mem[..a] + ws + mem[a + |ws|..]
  }

  /** Memory that holds `ws` at `a` and is unchanged elsewhere is that write. */
  lemma WriteIs<T>(mem: seq<T>, a: nat, ws: seq<T>, now: seq<T>)
    requires a + |ws| <= |mem| == |now|
    requires forall k :: 0 <= k < |ws| ==> now[a + k] == ws[k]
    requires forall i | 0 <= i < |mem| && !(a <= i < a + |ws|) :: now[i] == mem[i]
    ensures now == Write(mem, a, ws)
  {
    var w := Write(mem, a, ws);
    hide Write;
    forall i | 0 <= i < |mem|
      ensures now[i] == w[i]
    {
      if a <= i < a + |ws| {
        assert now[a + (i - a)] == ws[i - a];
      }
    }
  }

  /** Two adjacent downward writes, as made by consecutive pushes, are one write. */
  lemma WriteBelow<T>(mem: seq<T>, a: nat, ws: seq<T>, vs: seq<T>)
    requires |vs| <= a && a + |ws| <= |mem|
    ensures Write(Write(mem, a, ws), a - |vs|, vs) == Write(mem, a - |vs|, vs + ws)
  {
  }

  /** Two adjacent upward writes are one write. */
  lemma WriteAbove<T>(mem: seq<T>, a: nat, ws: seq<T>, vs: seq<T>)
    requires a + |ws| + |vs| <= |mem|
    ensures Write(Write(mem, a, ws), a + |ws|, vs) == Write(mem, a, ws + vs)
  {
  }
}
