/**
  The window registry: the ordered list of window records kept by the windows
  provider. The order is the z-order, the last record being the topmost window.
  Every operation builds a new list from the previous one.
 */
module Registry {
  import opened Wrappers
  import opened Entity
  import Decimal

  /** No record in `ws` carries the id `t`. */
  predicate Absent(ws: seq<Window>, t: string) {
    forall i :: 0 <= i < |ws| ==> ws[i].id != t
  }

  predicate UniqueIds(ws: seq<Window>) {
    forall i, j :: 0 <= i < j < |ws| ==> ws[i].id != ws[j].id
  }

  /** How many records carry the id `t`. */
  function CountId(ws: seq<Window>, t: string): (n: nat)
    ensures n <= |ws|
    ensures n == 0 <==> Absent(ws, t)
    decreases |ws|
  {
    if ws == [] then 0
    else (if ws[0].id == t then 1 else 0) + CountId(ws[1..], t)
  }

  /** `addWindow`: the new record goes to the tail, on top of all others. */
  function AddWindow(ws: seq<Window>, nw: Window): (r: seq<Window>)
    ensures |r| == |ws| + 1
    ensures r[..|ws|] == ws
    ensures r[|ws|] == nw
  {
    ws + [nw]
  }

  /**
    `delWindow`: keep exactly the records whose id differs from `target`,
    each as many times as before, and nothing is removed when the id is absent.
   */
  function DelWindow(ws: seq<Window>, target: string): (r: seq<Window>)
    ensures Absent(r, target)
    ensures |r| + CountId(ws, target) == |ws|
    ensures Absent(ws, target) ==> r == ws
    decreases |ws|
  {
    if ws == [] then []
    else (if ws[0].id != target then [ws[0]] else []) + DelWindow(ws[1..], target)
  }

  /** Every record without the id survives deletion as many times as it occurred; none with it does. */
  lemma {:induction false} DelWindowMultiset(ws: seq<Window>, target: string)
    ensures forall w :: multiset(DelWindow(ws, target))[w] == if w.id == target then 0 else multiset(ws)[w]
    decreases |ws|
  {
    if ws != [] {
      assert ws == [ws[0]] + ws[1..];
      DelWindowMultiset(ws[1..], target);
    }
  }

  /** Deleting distributes over concatenation, so the survivors keep their relative order. */
  lemma {:induction false} DelWindowAppend(a: seq<Window>, b: seq<Window>, target: string)
    ensures DelWindow(a + b, target) == DelWindow(a, target) + DelWindow(b, target)
    decreases |a|
  {
    if a != [] {
      assert (a + b)[1..] == a[1..] + b;
      DelWindowAppend(a[1..], b, target);
    } else {
      assert a + b == b;
    }
  }

  /** Deleting the same id twice is deleting it once. */
  lemma DelWindowIdempotent(ws: seq<Window>, target: string)
    ensures DelWindow(DelWindow(ws, target), target) == DelWindow(ws, target)
  {
  }

  /** Deletions of two ids can be done in either order. */
  lemma {:induction false} DelWindowCommutes(ws: seq<Window>, s: string, t: string)
    ensures DelWindow(DelWindow(ws, s), t) == DelWindow(DelWindow(ws, t), s)
    decreases |ws|
  {
    if ws != [] {
      DelWindowCommutes(ws[1..], s, t);
      var head := [ws[0]];
      assert ws == head + ws[1..];
      DelWindowAppend(head, ws[1..], s);
      DelWindowAppend(head, ws[1..], t);
      DelWindowAppend(DelWindow(head, s), DelWindow(ws[1..], s), t);
      DelWindowAppend(DelWindow(head, t), DelWindow(ws[1..], t), s);
    }
  }

  /** Adding a record with a fresh id and then deleting that id gives the registry back. */
  lemma AddThenDelete(ws: seq<Window>, nw: Window)
    requires Absent(ws, nw.id)
    ensures DelWindow(AddWindow(ws, nw), nw.id) == ws
  {
    DelWindowAppend(ws, [nw], nw.id);
  }

  /** The index of the first record carrying `t`, as `Array.prototype.find` scans. */
  function FirstIndex(ws: seq<Window>, t: string): (r: Option<nat>)
    ensures r.None? <==> Absent(ws, t)
    ensures r.Some? ==> r.value < |ws| && ws[r.value].id == t
    ensures r.Some? ==> forall j :: 0 <= j < r.value ==> ws[j].id != t
    decreases |ws|
  {
    if ws == [] then None
    else if ws[0].id == t then Some(0)
    else match FirstIndex(ws[1..], t)
      case None => None
      case Some(i) => Some(i + 1)
  }

  /** `prev.find(w => w.id == target)`; `None` stands for `undefined`. */
  function Find(ws: seq<Window>, t: string): (r: Option<Window>)
    ensures r.None? <==> Absent(ws, t)
    ensures r.Some? ==> r.value.id == t && r.value in ws
    ensures r.Some? ==> r.value == ws[FirstIndex(ws, t).value]
  {
    match FirstIndex(ws, t)
    case None => None
    case Some(i) => Some(ws[i])
  }

  function Lift(ws: seq<Window>): (r: seq<Option<Window>>)
    ensures |r| == |ws|
    ensures forall i :: 0 <= i < |r| ==> r[i] == Some(ws[i])
  {
    seq(|ws|, i requires 0 <= i < |ws| => Some(ws[i]))
  }

  /**
    `setActive` as written: the records without the id, then whatever `find`
    returned, which is `undefined` when the id is absent.
   */
  function SetActive(ws: seq<Window>, target: string): (r: seq<Option<Window>>)
    ensures |r| == |ws| - CountId(ws, target) + 1
    ensures forall i :: 0 <= i < |r| - 1 ==> r[i].Some? && r[i].value.id != target
    ensures r[|r| - 1].None? <==> Absent(ws, target)
  {
    Lift(DelWindow(ws, target)) + [Find(ws, target)]
  }

  /** With an absent id, `setActive` keeps every record and appends `undefined`. */
  lemma SetActiveAbsentAppendsUndefined(ws: seq<Window>, target: string)
    requires Absent(ws, target)
    ensures SetActive(ws, target) == Lift(ws) + [None]
    ensures |SetActive(ws, target)| == |ws| + 1
  {
  }

  /**
    Activation as the registry is meant to behave: the first record with the id
    moves to the tail, every other record keeps its relative order, and an
    absent id changes nothing.
   */
  function Activate(ws: seq<Window>, target: string): (r: seq<Window>)
    ensures Absent(ws, target) ==> r == ws
    ensures !Absent(ws, target) ==>
      |r| > 0 && r[|r| - 1] == ws[FirstIndex(ws, target).value] && r[..|r| - 1] == DelWindow(ws, target)
  {
    match FirstIndex(ws, target)
    case None => ws
    case Some(i) =>
      var r := DelWindow(ws, target) + [ws[i]];
      assert r[..|r| - 1] == DelWindow(ws, target);
      r
  }

  /** Whenever the id is present, the source's `setActive` is exactly `Activate`. */
  lemma SetActiveIsActivate(ws: seq<Window>, target: string)
    requires !Absent(ws, target)
    ensures SetActive(ws, target) == Lift(Activate(ws, target))
  {
    var r := Activate(ws, target);
    assert r == DelWindow(ws, target) + [r[|r| - 1]];
  }

  lemma DelWindowAround(before: seq<Window>, x: Window, after: seq<Window>, target: string)
    requires Absent(before, target) && Absent(after, target) && x.id == target
    ensures DelWindow(before + [x] + after, target) == before + after
  {
    DelWindowAppend(before + [x], after, target);
    DelWindowAppend(before, [x], target);
  }

  /** With unique ids, activation only reorders: same length, same records. */
  lemma {:induction false} ActivatePermutation(ws: seq<Window>, target: string)
    requires UniqueIds(ws)
    ensures |Activate(ws, target)| == |ws|
    ensures multiset(Activate(ws, target)) == multiset(ws)
  {
    if !Absent(ws, target) {
      var i := FirstIndex(ws, target).value;
      var before, after := ws[..i], ws[i + 1..];
      assert ws == before + [ws[i]] + after;
      assert Absent(after, target) by {
        forall j | 0 <= j < |after| ensures after[j].id != target {
          assert after[j] == ws[i + 1 + j];
        }
      }
      DelWindowAround(before, ws[i], after, target);
      assert Activate(ws, target) == before + after + [ws[i]];
    }
  }

  /** Activation puts the id on top, and activating it again changes nothing. */
  lemma ActivateIdempotent(ws: seq<Window>, target: string)
    ensures Activate(Activate(ws, target), target) == Activate(ws, target)
  {
    var r := Activate(ws, target);
    if !Absent(ws, target) {
      var d := DelWindow(ws, target);
      var top := r[|r| - 1];
      assert r == d + [top];
      DelWindowAppend(d, [top], target);
      assert DelWindow(r, target) == d;
      assert FirstIndex(r, target) == Some(|d|);
    }
  }

  /** Three windows added as A, B, C; activating A gives B, C, A. */
  lemma ActivateScenario(a: Window, b: Window, c: Window)
    requires a.id != b.id && a.id != c.id && b.id != c.id
    ensures Activate([a, b, c], a.id) == [b, c, a]
  {
    assert [a, b, c] == [a] + [b, c];
    DelWindowAppend([a], [b, c], a.id);
  }

  /** With duplicated ids, `setActive` loses records: all copies go, one comes back. */
  lemma ActivateDropsDuplicates(ws: seq<Window>, target: string)
    requires CountId(ws, target) >= 2
    ensures |Activate(ws, target)| == |ws| - CountId(ws, target) + 1 < |ws|
  {
  }

  /** `make_key`: one more than the number of records. */
  function MakeKey(ws: seq<Window>): (k: nat)
    ensures k >= 1
    ensures k == |ws| + 1
  {
    |ws| + 1
  }

  /**
    `make_id`: the decimal timestamp, a dash, and the decimal key. The dash
    right after the timestamp is the only one, so the two parts can be told apart.
   */
  function MakeId(now: nat, key: nat): (id: string)
    ensures forall i :: 0 <= i < |id| ==> (id[i] == '-' <==> i == |Decimal.NatToString(now)|)
  {
    var a, b := Decimal.NatToString(now), Decimal.NatToString(key);
    var id := a + "-" + b;
    assert forall i :: 0 <= i < |id| && i != |a| ==> Decimal.IsDigit(id[i]) by {
      forall i | 0 <= i < |id| && i != |a| ensures Decimal.IsDigit(id[i]) {
        if i < |a| { assert id[i] == a[i]; } else { assert id[i] == b[i - |a| - 1]; }
      }
    }
    id
  }

  /** The position of the first `c` in `s`. */
  function IndexOf(s: string, c: char): (r: Option<nat>)
    ensures r.Some? ==> r.value < |s| && s[r.value] == c && forall j :: 0 <= j < r.value ==> s[j] != c
    ensures r.None? ==> forall j :: 0 <= j < |s| ==> s[j] != c
    decreases |s|
  {
    if s == [] then None
    else if s[0] == c then Some(0)
    else match IndexOf(s[1..], c)
      case None => None
      case Some(i) => Some(i + 1)
  }

  /** Reads an id back into its timestamp and key; `None` when it is not of that shape. */
  function ParseId(id: string): Option<(nat, nat)> {
    match IndexOf(id, '-')
    case None => None
    case Some(i) =>
      var stamp, key := id[..i], id[i + 1..];
      if stamp != [] && key != [] && Decimal.AllDigits(stamp) && Decimal.AllDigits(key)
      then Some((Decimal.ParseDigits(stamp), Decimal.ParseDigits(key)))
      else None
  }

  /** An id made by `make_id` records exactly the timestamp and key it was made from. */
  lemma MakeIdRoundTrip(now: nat, key: nat)
    ensures ParseId(MakeId(now, key)) == Some((now, key))
  {
    var a, b := Decimal.NatToString(now), Decimal.NatToString(key);
    var id := MakeId(now, key);
    assert IndexOf(id, '-') == Some(|a|) by {
      assert id[|a|] == '-';
      forall j | 0 <= j < |a| ensures id[j] != '-' {
        assert id[j] == a[j];
      }
    }
    assert id[..|a|] == a;
    assert id[|a| + 1..] == b;
    Decimal.ParseNatToString(now);
    Decimal.ParseNatToString(key);
  }

  /** Two ids are equal only when both their timestamps and their keys are. */
  lemma MakeIdInjective(now1: nat, key1: nat, now2: nat, key2: nat)
    requires MakeId(now1, key1) == MakeId(now2, key2)
    ensures now1 == now2 && key1 == key2
  {
    MakeIdRoundTrip(now1, key1);
    MakeIdRoundTrip(now2, key2);
  }

  /** `key_id`: a key and the id made from that same key. */
  function KeyId(ws: seq<Window>, now: nat): (r: (nat, string))
    ensures r.0 == |ws| + 1
    ensures r.1 == MakeId(now, r.0)
    ensures ParseId(r.1) == Some((now, r.0))
  {
    var key := MakeKey(ws);
    MakeIdRoundTrip(now, key);
    (key, MakeId(now, key))
  }
}
