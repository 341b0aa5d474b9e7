/**
 Documents under construction: a stack of open documents and arrays, as the STACK macros of
 bson-json.c and bcon.c keep it, and what appending, opening and closing do to it.
 */
module BsonBuilding {
  import opened Bson
  import Digits

  /** An open document or array; `begun` is the key it was begun under. */
  datatype Level = Level(isArray: bool, next: nat, begun: string, fields: seq<Field>)

  /** The open levels, innermost first. */
  datatype Stack = Bottom | Open(top: Level, outer: Stack)

  function Height(stack: Stack): nat
  {
    match stack case Bottom => 0 case Open(_, outer) => 1 + Height(outer)
  }

  /** The document under construction: `target` receives the fields of the outermost level. */
  datatype Building = Building(target: seq<Field>, stack: Stack)

  /** The key of element i of an array. */
  function IndexKey(i: nat): string { Digits.Chars(Digits.OfNat(i)) }

  /** Fields appended to the innermost level. */
  function AddFields(d: Building, fs: seq<Field>): Building
    requires d.stack.Open?
  {
    if d.stack.outer.Bottom? then d.(target := d.target + fs)
    else d.(stack := Open(d.stack.top.(fields := d.stack.top.fields + fs), d.stack.outer))
  }

  /** Array indexes used up by n callbacks that fix the key. */
  function Skip(d: Building, n: nat): Building
    requires d.stack.Open?
  {
    if d.stack.top.isArray then d.(stack := Open(d.stack.top.(next := d.stack.top.next + n), d.stack.outer)) else d
  }

  function OpenLevel(d: Building, isArray: bool, key: string): Building
  {
    d.(stack := Open(Level(isArray, 0, key, []), d.stack))
  }

  function Container(isArray: bool, fs: seq<Field>): Value
  {
    if isArray then Array(fs) else Document(fs)
  }

  /** Adding fields twice is adding them at once. */
  lemma AddTwice(d: Building, n: nat, fs: seq<Field>, m: nat, gs: seq<Field>)
    requires d.stack.Open?
    ensures AddFields(Skip(AddFields(Skip(d, n), fs), m), gs) == AddFields(Skip(d, n + m), fs + gs)
  {
    assert (d.target + fs) + gs == d.target + (fs + gs);
    assert (d.stack.top.fields + fs) + gs == d.stack.top.fields + (fs + gs);
  }

  lemma AddNothing(d: Building)
    requires d.stack.Open?
    ensures AddFields(Skip(d, 0), []) == d
  {
    assert d.target + [] == d.target && d.stack.top.fields + [] == d.stack.top.fields;
  }

  /** Different indexes have different keys. */
  lemma IndexKeyInjective(i: nat, j: nat)
    requires IndexKey(i) == IndexKey(j)
    ensures i == j
  {
    var a, b := Digits.OfNat(i), Digits.OfNat(j);
    assert forall k :: 0 <= k < |a| ==> Digits.DigitOf(Digits.Chars(a)[k]) == a[k];
    assert forall k :: 0 <= k < |b| ==> Digits.DigitOf(Digits.Chars(b)[k]) == b[k];
    assert a == b;
    Digits.OfNatDenotes(i);
    Digits.OfNatDenotes(j);
  }

  // The stack as an array of frames.

  /** A frame; i counts the elements of an array and is not reset for a document. */
  datatype Frame = Frame(i: nat, isArray: bool, begun: string, fields: seq<Field>)

  /** The level in frame k; the outermost one builds the target document itself. */
  function LevelOf(f: Frame, k: nat): Level
  {
    Level(f.isArray, if f.isArray then f.i else 0, if k == 0 then "" else f.begun, if k == 0 then [] else f.fields)
  }

  function StackOf(frames: seq<Frame>, n: int): Stack
    requires n < |frames|
  {
    if n < 0 then Bottom else Open(LevelOf(frames[n], n), StackOf(frames, n - 1))
  }

  lemma {:induction false} StackHeight(frames: seq<Frame>, n: int)
    requires -1 <= n < |frames|
    ensures Height(StackOf(frames, n)) == n + 1
  {
    if n >= 0 {
      StackHeight(frames, n - 1);
    }
  }

  /** Frames above n do not matter. */
  lemma {:induction false} StackPrefix(a: seq<Frame>, b: seq<Frame>, n: int)
    requires n < |a| && n < |b| && forall k :: 0 <= k <= n ==> a[k] == b[k]
    ensures StackOf(a, n) == StackOf(b, n)
  {
    if n >= 0 {
      StackPrefix(a, b, n - 1);
    }
  }

  lemma TopLevel(frames: seq<Frame>, n: int)
    requires n < |frames|
    ensures StackOf(frames, n) == if n < 0 then Bottom else Open(LevelOf(frames[n], n), StackOf(frames, n - 1))
  {
  }

  lemma OuterLevels(frames: seq<Frame>, n: int)
    requires n < |frames|
    ensures StackOf(frames, n).Open? <==> n >= 0
    ensures n >= 0 ==> (StackOf(frames, n).outer.Bottom? <==> n == 0)
  {
  }
}
