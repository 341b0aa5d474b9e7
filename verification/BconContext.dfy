/**
 The contexts of bcon.c as objects: an array of 100 frames and the index n of the innermost one.
 A failed assertion ends the run; each context is proved to run its machine of module Bcon.
 */
module BconContext {
  import opened Bcon
  import opened BconTheorems
  import opened Bson
  import opened BsonBuilding
  import opened Words
  import BsonBytes

  class AppendContext {
    var bson: seq<Field>
    const stack: array<Frame>
    var n: nat

    predicate Valid()
      reads this
    {
      stack.Length == BCON_STACK_MAX && n < BCON_STACK_MAX
    }

    function View(): Building
      requires Valid()
      reads this, stack
      ensures View().stack.Open?
    {
      Building(bson, StackOf(stack[..], n))
    }

    /** bcon_append_ctx_init, on a document with the given fields. */
    constructor (target: seq<Field>)
      ensures Valid() && fresh(stack) && View() == Beginning(target)
    {
      bson, n := target, 0;
      stack := new Frame[BCON_STACK_MAX](_ => Frame(0, false, "", []));
      new;
      assert StackOf(stack[..], -1) == Bottom;
    }

    /** Fields appended to the document on top. */
    method AppendAll(fs: seq<Field>)
      requires Valid()
      modifies this`bson, stack
      ensures Valid() && View() == AddFields(old(View()), fs)
      ensures stack[n].isArray == old(stack[n].isArray) && stack[n].i == old(stack[n].i)
    {
      OuterLevels(stack[..], n);
      if n == 0 {
        bson := bson + fs;
      } else {
        ghost var before := stack[..];
        stack[n] := stack[n].(fields := stack[n].fields + fs);
        StackPrefix(before, stack[..], n - 1);
      }
    }

    method PushFrame(isArray: bool, key: string) returns (ok: bool)
      requires Valid()
      modifies this`n, stack
      ensures Valid() && (if ok then Pushed(old(View()), isArray, key) == Some(View())
                          else Pushed(old(View()), isArray, key).None?)
    {
      StackHeight(stack[..], n);
      if n >= BCON_STACK_MAX - 1 {
        return false;
      }
      ghost var before := stack[..];
      n := n + 1;
      stack[n] := Frame(if isArray then 0 else stack[n].i, isArray, key, []);
      StackPrefix(before, stack[..], n - 1);
      ok := true;
    }

    method PopFrame(isArray: bool) returns (ok: bool)
      requires Valid()
      modifies this, stack
      ensures Valid() && (if ok then Popped(old(View()), isArray) == Some(View())
                          else Popped(old(View()), isArray).None?)
    {
      hide AddFields;
      OuterLevels(stack[..], n);
      OuterLevels(stack[..], n - 1);
      if stack[n].isArray != isArray || n == 0 {
        return false;
      }
      var child := Field(stack[n].begun, Container(isArray, stack[n].fields));
      n := n - 1;
      AppendAll([child]);
      ok := true;
    }

    /** STACK_I++ and STACK_I--. */
    method SetIndex(i: nat)
      requires Valid() && stack[n].isArray
      modifies stack
      ensures Valid() && View() == WithNext(old(View()), i)
      ensures stack[n].isArray && stack[n].i == i
    {
      ghost var before := stack[..];
      stack[n] := stack[n].(i := i);
      StackPrefix(before, stack[..], n - 1);
    }

    /** _bson_concat_array: the index already taken is given back first. */
    method ConcatArray(fs: seq<Field>)
      requires Valid() && stack[n].isArray && stack[n].i >= 1
      modifies this`bson, stack
      ensures Valid()
      ensures var first := old(stack[n].i) - 1;
              View() == AddFields(WithNext(old(View()), first + |fs|), Renumbered(fs, first))
    {
      hide AddFields, Renumbered, StackOf, IndexKey;
      ghost var start := View();
      var i := stack[n].i - 1;
      ghost var first: nat := i;
      SetIndex(i);
      var k := 0;
      NothingYet(start, first, fs);
      while k < |fs|
        invariant 0 <= k <= |fs| && Valid() && stack[n].isArray && i == first + k
        invariant View() == AddFields(WithNext(start, first + k), Renumbered(fs[..k], first))
      {
        SetIndex(i + 1);
        AppendAll([Field(IndexKey(i), fs[k].value)]);
        OneMore(start, first, fs, k);
        i, k := i + 1, k + 1;
      }
      assert fs[..k] == fs;
    }

    lemma NothingYet(start: Building, first: nat, fs: seq<Field>)
      requires start.stack.Open?
      ensures WithNext(start, first).stack.Open?
      ensures AddFields(WithNext(start, first), Renumbered(fs[..0], first)) == WithNext(start, first)
    {
      var d := WithNext(start, first);
      assert d.target + [] == d.target && d.stack.top.fields + [] == d.stack.top.fields;
    }

    lemma OneMore(d: Building, first: nat, fs: seq<Field>, k: nat)
      requires d.stack.Open? && k < |fs|
      ensures AddFields(WithNext(AddFields(WithNext(d, first + k), Renumbered(fs[..k], first)), first + k + 1),
                        [Field(IndexKey(first + k), fs[k].value)])
              == AddFields(WithNext(d, first + (k + 1)), Renumbered(fs[..k + 1], first))
    {
      hide IndexKey;
      RenumberedLength(fs[..k], first);
      RenumberedLength(fs[..k + 1], first);
      assert Renumbered(fs[..k + 1], first) == Renumbered(fs[..k], first) + [Field(IndexKey(first + k), fs[k].value)];
      assert (d.target + Renumbered(fs[..k], first)) + [Field(IndexKey(first + k), fs[k].value)]
          == d.target + Renumbered(fs[..k + 1], first);
      assert (d.stack.top.fields + Renumbered(fs[..k], first)) + [Field(IndexKey(first + k), fs[k].value)]
          == d.stack.top.fields + Renumbered(fs[..k + 1], first);
    }

    /** The switch over a value token; not ok is a failed assertion. */
    method AppendToken(key: string, token: Token) returns (ok: bool)
      requires Valid()
      modifies this, stack
      ensures Valid() && (if ok then AppendValue(old(View()), key, token) == Some(View())
                          else AppendValue(old(View()), key, token).None?)
    {
      ok := true;
      match token {
        case EndToken => ok := false;
        case SpliceToken(fs) =>
          if stack[n].isArray && stack[n].i >= 1 {
            ConcatArray(fs);
          } else {
            ok := false;
          }
        case DocStart => ok := PushFrame(false, key);
        case DocEnd => ok := PopFrame(false);
        case ArrayStart => ok := PushFrame(true, key);
        case ArrayEnd => ok := PopFrame(true);
        case TextToken(s) => AppendAll([Field(key, Utf8(s))]);
        case ScalarToken(v) => AppendAll([Field(key, v)]);
      }
    }

    lemma TopFrame()
      requires Valid()
      ensures View().stack.top.isArray == stack[n].isArray
      ensures stack[n].isArray ==> View().stack.top.next == stack[n].i
    {
    }

    /** One round of the loop: it goes on at the next argument, or ends with r. */
    method AppendRound(args: seq<Arg>, from: nat) returns (more: bool, ap: nat, r: Appended)
      requires Valid() && from <= |args|
      modifies this, stack
      ensures Valid() && from <= ap <= |args|
      ensures more ==> from < ap && Append(old(View()), args[from..]) == Append(View(), args[ap..])
      ensures !more ==> r == Append(old(View()), args[from..]) && (r.Finished? ==> r.d == View())
    {
      hide AddFields, AppendValue, Popped, Skip, StackOf, IndexKey, Bracket;
      ap, r := from, Starved;
      TopFrame();
      if ap == |args| {
        return false, ap, r;
      }
      var key;
      assert args[ap..][1..] == args[ap + 1..];
      if stack[n].isArray {
        key := IndexKey(stack[n].i);
        TakeIndex();
      } else {
        var token := TokenOf(args[ap]);
        ap := ap + 1;
        match token {
          case EndToken => return false, ap, Finished(View());
          case DocEnd =>
            more := PopFrame(false);
            return more, ap, Aborted;
          case SpliceToken(fs) =>
            AppendAll(fs);
            return true, ap, r;
          case TextToken(s) => key := s;
          case _ => return false, ap, Aborted;
        }
        if ap == |args| {
          return false, ap, r;
        }
        assert args[from..][1..] == args[ap..] && args[ap..][1..] == args[ap + 1..];
      }
      more := AppendToken(key, TokenOf(args[ap]));
      return more, ap + 1, Aborted;
    }

    /** bcon_append_ctx_va. */
    method AppendArgs(args: seq<Arg>) returns (r: Appended)
      requires Valid()
      modifies this, stack
      ensures Valid() && r == Append(old(View()), args) && (r.Finished? ==> r.d == View())
    {
      hide Append;
      ghost var goal := Append(View(), args);
      assert args[0..] == args;
      var ap := 0;
      while true
        invariant 0 <= ap <= |args| && Valid() && Append(View(), args[ap..]) == goal
        decreases |args| - ap
      {
        var more;
        more, ap, r := AppendRound(args, ap);
        if !more {
          return;
        }
      }
    }

    /**
     A document for a tree: the builder makes its fields behind those it found, and is back at
     the frame it started from.
     */
    method AppendTree(entries: seq<Entry>)
      requires Valid() && View() == Beginning(bson) && GoodEntries(entries)
      requires 1 + EntryLevels(entries) <= BCON_STACK_MAX
      modifies this, stack
      ensures Valid() && View() == Beginning(old(bson) + BuiltEntries(entries))
    {
      BuildingIsRecursion(bson, entries);
      var r := AppendArgs(EntryArgs(entries) + [Last]);
    }

    /** The index is taken and counted on. */
    method TakeIndex()
      requires Valid() && stack[n].isArray
      modifies stack
      ensures Valid() && View() == Skip(old(View()), 1)
    {
      SetIndex(stack[n].i + 1);
    }
  }

  // Extraction.

  /** A frame of the extractor; the outermost one looks at the whole document. */
  function ViewOf(frames: seq<View>, n: nat, root: seq<Field>): View
    requires n < |frames|
  {
    View(frames[n].isArray, if frames[n].isArray then frames[n].next else 0, if n == 0 then root else frames[n].fields)
  }

  function ViewsOf(frames: seq<View>, n: int, root: seq<Field>): (v: Views)
    requires n < |frames|
    ensures v.Views? <==> n >= 0
  {
    if n < 0 then NoViews else Views(ViewOf(frames, n, root), ViewsOf(frames, n - 1, root))
  }

  lemma {:induction false} ViewsDepth(frames: seq<View>, n: int, root: seq<Field>)
    requires -1 <= n < |frames|
    ensures Depth(ViewsOf(frames, n, root)) == n + 1
  {
    if n >= 0 {
      ViewsDepth(frames, n - 1, root);
    }
  }

  lemma {:induction false} ViewsPrefix(a: seq<View>, b: seq<View>, n: int, root: seq<Field>)
    requires n < |a| && n < |b| && forall k :: 0 <= k <= n ==> a[k] == b[k]
    ensures ViewsOf(a, n, root) == ViewsOf(b, n, root)
  {
    if n >= 0 {
      ViewsPrefix(a, b, n - 1, root);
    }
  }

  class ExtractContext {
    const root: seq<Field>
    const stack: array<View>
    var n: nat

    predicate Valid()
      reads this
    {
      stack.Length == BCON_STACK_MAX && n < BCON_STACK_MAX
    }

    function Looking(): Views
      requires Valid()
      reads this, stack
      ensures Looking().Views?
    {
      ViewsOf(stack[..], n, root)
    }

    /** bcon_extract_ctx_init, on a document with the given fields. */
    constructor (fs: seq<Field>)
      ensures Valid() && fresh(stack) && root == fs && Looking() == Viewing(fs)
    {
      root, n := fs, 0;
      stack := new View[BCON_STACK_MAX](_ => View(false, 0, []));
      new;
      assert ViewsOf(stack[..], -1, fs) == NoViews;
    }

    /** bson_iter_find on a copy of the iterator of the frame. */
    method FindHere(key: string) returns (found: Option<Value>)
      requires Valid()
      ensures found == Lookup(Looking().top.fields, key)
    {
      var fs := if n == 0 then root else stack[n].fields;
      var k := 0;
      assert fs[0..] == fs;
      while k < |fs|
        invariant 0 <= k <= |fs| && Lookup(fs, key) == Lookup(fs[k..], key)
      {
        if fs[k].key == key {
          return Some(fs[k].value);
        }
        assert fs[k..][1..] == fs[k + 1..];
        k := k + 1;
      }
      found := None;
    }

    method PushView(isArray: bool, fs: seq<Field>) returns (ok: bool)
      requires Valid()
      modifies this`n, stack
      ensures Valid() && ok == (Depth(old(Looking())) < BCON_STACK_MAX)
      ensures ok ==> Looking() == Views(View(isArray, 0, fs), old(Looking()))
    {
      ViewsDepth(stack[..], n, root);
      if n >= BCON_STACK_MAX - 1 {
        return false;
      }
      ghost var before := stack[..];
      n := n + 1;
      stack[n] := View(isArray, if isArray then 0 else stack[n].next, fs);
      ViewsPrefix(before, stack[..], n - 1, root);
      ok := true;
    }

    method PopView(isArray: bool) returns (ok: bool)
      requires Valid()
      modifies this`n
      ensures Valid() && (if ok then Closed(old(Looking()), isArray) == Some(Looking())
                          else Closed(old(Looking()), isArray).None?)
    {
      if stack[n].isArray != isArray || n == 0 {
        return false;
      }
      n := n - 1;
      ok := true;
    }

    method TakeIndex()
      requires Valid() && stack[n].isArray
      modifies stack
      ensures Valid() && Looking() == Advance(old(Looking()), 1)
    {
      ghost var before := stack[..];
      stack[n] := stack[n].(next := stack[n].next + 1);
      ViewsPrefix(before, stack[..], n - 1, root);
    }

    /** _bcon_extract_single: the type is checked before anything is stored. */
    method ExtractSingle(value: Value, want: Want) returns (ok: bool, stored: seq<Value>)
      ensures ok == Accepts(want, value) && (ok ==> stored == Output(want, value))
    {
      stored := [];
      match want {
        case OfType(code) =>
          if BsonBytes.TypeCode(value) != code {
            return false, stored;
          }
          if HasOutput(code) {
            stored := [value];
          }
        case SkipType(code) =>
          if BsonBytes.TypeCode(value) != code {
            return false, stored;
          }
        case AnyValue => stored := [value];
      }
      ok := true;
    }

    /** A value token under its key; it may end the run with r. */
    method ExtractToken(key: string, ps: seq<Pattern>, from: nat, yielded: seq<Value>)
      returns (more: bool, next: seq<Value>, r: Extracted)
      requires Valid() && from < |ps|
      modifies this`n, stack
      ensures Valid()
      ensures var whole := ExtractValue(old(Looking()), key, ps[from..], yielded);
              if more then whole == Extract(Looking(), ps[from + 1..], next) else r == whole && !r.Matched?
    {
      more, next, r := false, yielded, Mismatch;
      assert ps[from..][1..] == ps[from + 1..];
      var token := PatternOf(ps[from]);
      if token.EndOfPattern? {
        return false, next, Broken;
      }
      if token.Closes? {
        more := PopView(token.isArray);
        return more, next, Broken;
      }
      var found := FindHere(key);
      if found.None? {
        return;
      }
      match token {
        case Opens(isArray) =>
          if (isArray && found.value.Array?) || (!isArray && found.value.Document?) {
            more := PushView(isArray, found.value.fields);
            r := Broken;
          }
        case Hole(want) =>
          var stored;
          more, stored := ExtractSingle(found.value, want);
          next := yielded + stored;
        case Name(_) => r := Broken;
      }
    }

    /** One round of the loop: it goes on, or ends with r. */
    method ExtractRound(ps: seq<Pattern>, from: nat, yielded: seq<Value>)
      returns (more: bool, ap: nat, next: seq<Value>, r: Extracted)
      requires Valid() && from <= |ps|
      modifies this`n, stack
      ensures Valid() && from <= ap <= |ps|
      ensures var whole := Extract(old(Looking()), ps[from..], yielded);
              if more then from < ap && whole == Extract(Looking(), ps[ap..], next)
              else r == whole && (r.Matched? ==> r.end == Looking())
    {
      hide ExtractValue, Closed, ViewsOf, IndexKey, Bracket;
      more, ap, next, r := false, from, yielded, Broken;
      TopView();
      if ap == |ps| {
        return;
      }
      var key;
      if stack[n].isArray {
        key := IndexKey(stack[n].next);
        TakeIndex();
      } else {
        assert ps[from..][1..] == ps[from + 1..];
        var token := PatternOf(ps[ap]);
        ap := ap + 1;
        match token {
          case EndOfPattern => return false, ap, next, Matched(yielded, Looking());
          case Closes(isArray) =>
            if !isArray {
              more := PopView(false);
            }
            return more, ap, next, Broken;
          case Name(s) => key := s;
          case _ => return;
        }
        if ap == |ps| {
          return;
        }
      }
      more, next, r := ExtractToken(key, ps, ap, yielded);
      ap := ap + 1;
    }

    lemma TopView()
      requires Valid()
      ensures Looking().top.isArray == stack[n].isArray
      ensures stack[n].isArray ==> Looking().top.next == stack[n].next
    {
    }

    /** bcon_extract_ctx_va. */
    method ExtractArgs(ps: seq<Pattern>) returns (r: Extracted)
      requires Valid()
      modifies this`n, stack
      ensures Valid() && r == Extract(old(Looking()), ps, []) && (r.Matched? ==> r.end == Looking())
    {
      hide Extract;
      ghost var goal := Extract(Looking(), ps, []);
      assert ps[0..] == ps;
      var ap, yielded := 0, [];
      while true
        invariant 0 <= ap <= |ps| && Valid() && Extract(Looking(), ps[ap..], yielded) == goal
        decreases |ps| - ap
      {
        var more;
        more, ap, yielded, r := ExtractRound(ps, ap, yielded);
        if !more {
          return;
        }
      }
    }
  }
}
