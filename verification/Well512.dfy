/** The WELL512 transition of wiced_crypto.c as a linear map on sixteen words. */
module Well512 {
  import opened Words

  /** Sixteen words and the position of the current one. */
  datatype Well = Well(state: seq<bv32>, index: nat) {
    ghost predicate Valid() {
      |state| == 16 && index < 16
    }
  }

  // The shifts of one draw, named so that only their linearity need be known.
  function Left16(a: bv32): bv32 { a << 16 }
  function Left15(a: bv32): bv32 { a << 15 }
  function Right11(a: bv32): bv32 { a >> 11 }
  function Left5Masked(a: bv32): bv32 { (a << 5) & 0xDA44_2D24 }
  function Left2(a: bv32): bv32 { a << 2 }
  function Left18(a: bv32): bv32 { a << 18 }
  function Left28(a: bv32): bv32 { a << 28 }

  function B(a: bv32, c: bv32): bv32 {
    Xor(Xor(a, c), Xor(Left16(a), Left15(c)))
  }

  function C(c: bv32): bv32 {
    Xor(c, Right11(c))
  }

  /** The word written one position back, from the old word there and the two mixed ones. */
  function Back(a: bv32, b: bv32, c: bv32): bv32 {
    Xor(Xor(a, Left2(a)), Tail(b, c))
  }

  function Tail(b: bv32, c: bv32): bv32 {
    var a := Xor(b, c);
    Xor(Xor(b, Left18(b)), Xor(Xor(a, Left5Masked(a)), Left28(c)))
  }

  /** The slot k places on, around the ring of sixteen. */
  function Slot(i: nat, k: nat): (r: nat)
    ensures r < 16
  {
    (i + k) % 16
  }

  function Next(w: Well): (next: Well)
    requires w.Valid()
    ensures next.Valid()
  {
    var s, i, back := w.state, w.index, Slot(w.index, 15);
    var b, c := B(s[i], s[Slot(i, 13)]), C(s[Slot(i, 9)]);
    Well(s[i := Xor(b, c)][back := Back(s[back], b, c)], back)
  }

  function Run(w: Well, n: nat): (r: Well)
    requires w.Valid()
    ensures r.Valid()
    decreases n
  {
    if n == 0 then w else Run(Next(w), n - 1)
  }

  // ---------- Linearity ----------

  function Sum(s: seq<bv32>, t: seq<bv32>): (r: seq<bv32>)
    requires |s| == |t|
    ensures |r| == |s| && forall i :: 0 <= i < |s| ==> r[i] == Xor(s[i], t[i])
  {
    seq(|s|, i requires 0 <= i < |s| => Xor(s[i], t[i]))
  }

  lemma Left18Linear(a: bv32, b: bv32)
    ensures Left18(Xor(a, b)) == Xor(Left18(a), Left18(b))
  {
  }

  lemma LongShiftsLinear(a: bv32, b: bv32)
    ensures Left16(Xor(a, b)) == Xor(Left16(a), Left16(b))
    ensures Left28(Xor(a, b)) == Xor(Left28(a), Left28(b))
  {
  }

  lemma ShortShiftsLinear(a: bv32, b: bv32)
    ensures Left15(Xor(a, b)) == Xor(Left15(a), Left15(b))
    ensures Left2(Xor(a, b)) == Xor(Left2(a), Left2(b))
  {
  }

  lemma LeftShiftsLinear(a: bv32, b: bv32)
    ensures Left16(Xor(a, b)) == Xor(Left16(a), Left16(b))
    ensures Left15(Xor(a, b)) == Xor(Left15(a), Left15(b))
    ensures Left2(Xor(a, b)) == Xor(Left2(a), Left2(b))
    ensures Left18(Xor(a, b)) == Xor(Left18(a), Left18(b))
    ensures Left28(Xor(a, b)) == Xor(Left28(a), Left28(b))
  {
    hide Xor, Left16, Left15, Left2, Left18, Left28;
    LongShiftsLinear(a, b);
    Left18Linear(a, b);
    ShortShiftsLinear(a, b);
  }

  lemma OtherShiftsLinear(a: bv32, b: bv32)
    ensures Right11(Xor(a, b)) == Xor(Right11(a), Right11(b))
    ensures Left5Masked(Xor(a, b)) == Xor(Left5Masked(a), Left5Masked(b))
  {
  }

  lemma BLinear(a: bv32, a': bv32, c: bv32, c': bv32)
    ensures B(Xor(a, a'), Xor(c, c')) == Xor(B(a, c), B(a', c'))
  {
    hide Xor, Left16, Left15;
    LeftShiftsLinear(a, a');
    LeftShiftsLinear(c, c');
    XorInterchange(a, a', c, c');
    XorInterchange(Left16(a), Left16(a'), Left15(c), Left15(c'));
    XorInterchange(Xor(a, c), Xor(a', c'), Xor(Left16(a), Left15(c)), Xor(Left16(a'), Left15(c')));
  }

  lemma CLinear(c: bv32, c': bv32)
    ensures C(Xor(c, c')) == Xor(C(c), C(c'))
  {
    hide Xor, Right11;
    OtherShiftsLinear(c, c');
    XorInterchange(c, c', Right11(c), Right11(c'));
  }

  lemma TailLinear(b: bv32, b': bv32, c: bv32, c': bv32)
    ensures Tail(Xor(b, b'), Xor(c, c')) == Xor(Tail(b, c), Tail(b', c'))
  {
    hide Xor, Left18, Left28, Left5Masked;
    var a, a' := Xor(b, c), Xor(b', c');
    XorInterchange(b, b', c, c');
    LeftShiftsLinear(b, b');
    LeftShiftsLinear(c, c');
    OtherShiftsLinear(a, a');
    XorInterchange(b, b', Left18(b), Left18(b'));
    XorInterchange(a, a', Left5Masked(a), Left5Masked(a'));
    var m, m' := Xor(a, Left5Masked(a)), Xor(a', Left5Masked(a'));
    XorInterchange(m, m', Left28(c), Left28(c'));
    XorInterchange(Xor(b, Left18(b)), Xor(b', Left18(b')), Xor(m, Left28(c)), Xor(m', Left28(c')));
  }

  lemma BackLinear(a: bv32, a': bv32, b: bv32, b': bv32, c: bv32, c': bv32)
    ensures Back(Xor(a, a'), Xor(b, b'), Xor(c, c')) == Xor(Back(a, b, c), Back(a', b', c'))
  {
    hide Xor, Left2, Tail;
    TailLinear(b, b', c, c');
    LeftShiftsLinear(a, a');
    XorInterchange(a, a', Left2(a), Left2(a'));
    XorInterchange(Xor(a, Left2(a)), Xor(a', Left2(a')), Tail(b, c), Tail(b', c'));
  }

  /** Two states at one position, added word by word. */
  function Plus(w: Well, v: Well): (r: Well)
    requires w.Valid() && v.Valid() && w.index == v.index
    ensures r.Valid() && r.index == w.index
  {
    Well(Sum(w.state, v.state), w.index)
  }

  /** A draw is linear in the state. */
  lemma NextLinear(w: Well, v: Well)
    requires w.Valid() && v.Valid() && w.index == v.index
    ensures Next(Plus(w, v)) == Plus(Next(w), Next(v))
  {
    hide Xor, B, C, Back, Slot;
    var s, t, i := w.state, v.state, w.index;
    var back, p, q := Slot(i, 15), Slot(i, 13), Slot(i, 9);
    var b, c := B(s[i], s[p]), C(s[q]);
    var b', c' := B(t[i], t[p]), C(t[q]);
    BLinear(s[i], t[i], s[p], t[p]);
    CLinear(s[q], t[q]);
    XorInterchange(b, b', c, c');
    BackLinear(s[back], t[back], b, b', c, c');
    var l, r := Next(Plus(w, v)).state, Plus(Next(w), Next(v)).state;
    forall k | 0 <= k < 16 ensures l[k] == r[k] {
      assert k != i && k != back ==> l[k] == Xor(s[k], t[k]) == r[k];
    }
    assert l == r;
  }

  lemma {:induction false} RunLinear(w: Well, v: Well, n: nat)
    requires w.Valid() && v.Valid() && w.index == v.index
    ensures Run(w, n).index == Run(v, n).index
    ensures Run(Plus(w, v), n) == Plus(Run(w, n), Run(v, n))
    decreases n
  {
    hide Next, Plus;
    if n > 0 {
      NextIndex(w);
      NextIndex(v);
      NextLinear(w, v);
      RunLinear(Next(w), Next(v), n - 1);
    }
  }

  lemma NextIndex(w: Well)
    requires w.Valid()
    ensures Next(w).index == Slot(w.index, 15)
  {
  }

  // ---------- The published recurrence ----------

  // The matrices of WELL512 in "Improved long-period generators based on linear recurrences modulo 2" by
  // Panneton, L'Ecuyer and Matsumoto (2006).
  function T0(v: bv32): bv32 { Xor(v, v << 16) }
  function T1(v: bv32): bv32 { Xor(v, v << 15) }
  function T2(v: bv32): bv32 { Xor(v, v >> 11) }
  function T4(v: bv32): bv32 { Xor(v, v << 2) }
  function T5(v: bv32): bv32 { Xor(v, v << 18) }
  function T6(v: bv32): bv32 { v << 28 }
  function T7(v: bv32): bv32 { Xor(v, (v << 5) & 0xDA44_2D24) }

  /** The recurrence on a window of sixteen words, the newest first: two words enter, two leave. */
  function Recurrence(v: seq<bv32>): (u: seq<bv32>)
    requires |v| == 16
    ensures |u| == 16
  {
    var z0, z1, z2 := v[15], Xor(T0(v[0]), T1(v[13])), T2(v[9]);
    var z3 := Xor(z1, z2);
    var z4 := Xor(Xor(T4(z0), T5(z1)), Xor(T6(z2), T7(z3)));
    [z4, z3] + v[1..15]
  }

  function Recurrences(v: seq<bv32>, n: nat): (u: seq<bv32>)
    requires |v| == 16
    ensures |u| == 16
    decreases n
  {
    if n == 0 then v else Recurrences(Recurrence(v), n - 1)
  }

  /** The words around the ring from the current one on. */
  function Window(w: Well): (v: seq<bv32>)
    requires w.Valid()
    ensures |v| == 16 && forall j :: 0 <= j < 16 ==> v[j] == w.state[Slot(w.index, j)]
  {
    seq(16, j requires 0 <= j < 16 => w.state[Slot(w.index, j)])
  }

  lemma MatricesAre(v: bv32)
    ensures T0(v) == Xor(v, Left16(v)) && T1(v) == Xor(v, Left15(v)) && T2(v) == Xor(v, Right11(v))
    ensures T4(v) == Xor(v, Left2(v)) && T5(v) == Xor(v, Left18(v)) && T6(v) == Left28(v)
    ensures T7(v) == Xor(v, Left5Masked(v))
  {
    hide Xor;
  }

  lemma MixesAre(a: bv32, c: bv32, z: bv32, b: bv32, c': bv32)
    ensures B(a, c) == Xor(T0(a), T1(c)) && C(c) == T2(c)
    ensures Back(z, b, c') == Xor(Xor(T4(z), T5(b)), Xor(T6(c'), T7(Xor(b, c'))))
  {
    hide Xor, Left16, Left15, Right11, Left5Masked, Left2, Left18, Left28, T0, T1, T2, T4, T5, T6, T7;
    MatricesAre(a);
    MatricesAre(c);
    MatricesAre(z);
    MatricesAre(b);
    MatricesAre(c');
    MatricesAre(Xor(b, c'));
    XorInterchange(a, c, Left16(a), Left15(c));
    var t4, t5, t6, t7 := T4(z), T5(b), T6(c'), T7(Xor(b, c'));
    XorCommutative(t7, t6);
    XorAssociative(t4, t5, Xor(t6, t7));
  }

  lemma SlotBehind(i: nat, j: nat)
    requires i < 16 && j < 15
    ensures Slot(Slot(i, 15), j + 1) == Slot(i, j) && Slot(Slot(i, 15), 0) == Slot(i, 15) && Slot(i, 0) == i
    ensures j > 0 ==> Slot(i, j) != i && Slot(i, j) != Slot(i, 15)
  {
  }

  /** A draw, written in place around the ring, is one step of the recurrence on the window; the word
      returned is the newest. */
  lemma NextIsRecurrence(w: Well)
    requires w.Valid()
    ensures Window(Next(w)) == Recurrence(Window(w))
    ensures w.state[w.index] == Window(w)[0]
  {
    hide Xor, B, C, Back, Slot, T0, T1, T2, T4, T5, T6, T7;
    var s, i, back := w.state, w.index, Slot(w.index, 15);
    var v, u := Window(w), Window(Next(w));
    SlotsDistinct(i);
    SlotBehind(i, 0);
    var b, c := B(s[i], s[Slot(i, 13)]), C(s[Slot(i, 9)]);
    MixesAre(s[i], s[Slot(i, 13)], s[back], b, c);
    MixesAre(0, s[Slot(i, 9)], 0, 0, 0);
    forall j | 2 <= j < 16 ensures u[j] == v[j - 1] { SlotBehind(i, j - 1); }
    assert u == Recurrence(v);
  }

  lemma {:induction false} RunIsRecurrence(w: Well, n: nat)
    requires w.Valid()
    ensures Window(Run(w, n)) == Recurrences(Window(w), n)
    decreases n
  {
    hide Next, Recurrence, Window;
    if n > 0 {
      NextIsRecurrence(w);
      RunIsRecurrence(Next(w), n - 1);
    }
  }

  // ---------- Injectivity ----------

  lemma Kernels(a: bv32)
    ensures Xor(a, Left16(a)) == 0 ==> a == 0
    ensures Xor(a, Left2(a)) == 0 ==> a == 0
  {
  }

  lemma MixesInjective(a: bv32, b: bv32)
    ensures Xor(a, Left16(a)) == Xor(b, Left16(b)) ==> a == b
    ensures Xor(a, Left2(a)) == Xor(b, Left2(b)) ==> a == b
  {
    hide Xor, Left16, Left2;
    var d := Xor(a, b);
    LeftShiftsLinear(a, b);
    XorInterchange(a, b, Left16(a), Left16(b));
    XorInterchange(a, b, Left2(a), Left2(b));
    Kernels(d);
    XorZero(a, b);
    XorZero(Xor(a, Left16(a)), Xor(b, Left16(b)));
    XorZero(Xor(a, Left2(a)), Xor(b, Left2(b)));
  }

  lemma XorRightInjective(a: bv32, b: bv32, c: bv32)
    requires Xor(a, c) == Xor(b, c)
    ensures a == b
  {
  }

  lemma BInjective(a: bv32, a': bv32, c: bv32)
    requires B(a, c) == B(a', c)
    ensures a == a'
  {
    hide Xor, Left16, Left15;
    XorInterchange(a, c, Left16(a), Left15(c));
    XorInterchange(a', c, Left16(a'), Left15(c));
    XorRightInjective(Xor(a, Left16(a)), Xor(a', Left16(a')), Xor(c, Left15(c)));
    MixesInjective(a, a');
  }

  lemma BackInjective(a: bv32, a': bv32, b: bv32, c: bv32)
    requires Back(a, b, c) == Back(a', b, c)
    ensures a == a'
  {
    hide Xor, Left2, Tail;
    XorRightInjective(Xor(a, Left2(a)), Xor(a', Left2(a')), Tail(b, c));
    MixesInjective(a, a');
  }

  /** A draw loses nothing: state and position can be recovered from the next ones. */
  lemma NextInjective(w: Well, v: Well)
    requires w.Valid() && v.Valid()
    requires Next(w) == Next(v)
    ensures w == v
  {
    hide Xor, B, C, Back, Slot;
    var s, t, i := w.state, v.state, w.index;
    var back, p, q := Slot(i, 15), Slot(i, 13), Slot(i, 9);
    SlotsDistinct(i);
    SlotInjective(i, v.index);
    forall k | 0 <= k < 16 && k != i && k != back ensures s[k] == t[k] {
      assert Next(w).state[k] == s[k] && Next(v).state[k] == t[k];
    }
    var c := C(s[q]);
    assert Xor(B(s[i], s[p]), c) == Next(w).state[i];
    assert Xor(B(t[i], s[p]), c) == Next(v).state[i];
    XorRightInjective(B(s[i], s[p]), B(t[i], s[p]), c);
    BInjective(s[i], t[i], s[p]);
    assert Back(s[back], B(s[i], s[p]), c) == Next(w).state[back];
    assert Back(t[back], B(s[i], s[p]), c) == Next(v).state[back];
    BackInjective(s[back], t[back], B(s[i], s[p]), c);
    assert s == t;
  }

  lemma SlotsDistinct(i: nat)
    requires i < 16
    ensures i != Slot(i, 15) && Slot(i, 15) != Slot(i, 13) && Slot(i, 15) != Slot(i, 9)
    ensures i != Slot(i, 13) && i != Slot(i, 9)
  {
  }

  lemma SlotInjective(i: nat, j: nat)
    requires i < 16 && j < 16
    ensures Slot(i, 15) == Slot(j, 15) ==> i == j
  {
  }

  ghost predicate AllZero(w: Well)
    requires w.Valid()
  {
    forall k :: 0 <= k < 16 ==> w.state[k] == 0
  }

  lemma ZeroStaysZero(w: Well)
    requires w.Valid() && AllZero(w)
    ensures AllZero(Next(w))
  {
  }

  /** Over any run of draws a state is all zero at the end exactly if it was at the start. */
  lemma {:induction false} RunKeepsNonZero(w: Well, n: nat)
    requires w.Valid()
    ensures AllZero(w) <==> AllZero(Run(w, n))
    decreases n
  {
    hide Next;
    if n > 0 {
      var z := Well(seq(16, _ => 0), w.index);
      ZeroStaysZero(z);
      if AllZero(w) { ZeroStaysZero(w); }
      if AllZero(Next(w)) {
        NextIndex(w);
        NextIndex(z);
        assert Next(w).state == Next(z).state;
        NextInjective(w, z);
      }
      RunKeepsNonZero(Next(w), n - 1);
    }
  }
}
