/**
 * Directory paging shared by the `readdir_*` handlers of `src/fs/mod.rs` and
 * `src/fs.rs`. The kernel passes the offset of the last item it received (0 on
 * the first call). On the first call the handler adds "." at offset 0 and ".."
 * at offset 1; item k of the directory then goes out at offset k + 2, and a
 * call with offset o > 0 skips the first o - 1 items. A page ends when the
 * reply buffer reports full.
 *
 * The items a handler walks are given as candidates: an item to add, one the
 * loop skips (`unwrap_opt_or_continue!` on a nameless entry), or a panic met
 * while producing it (in the name lookup, or in the iterator itself).
 */
module Listing {
  import opened Wrappers
  import opened Signatures
  import opened Fuse

  datatype Cand = Item(item: DirItem) | Skip | PathPanic | IterPanic

  /** The items among the candidates, in order. */
  function Present(cs: seq<Cand>): (r: seq<DirItem>)
    ensures |r| <= |cs|
    decreases |cs|
  {
    if |cs| == 0 then []
    else (if cs[0].Item? then [cs[0].item] else []) + Present(cs[1..])
  }

  /** No candidate panics. */
  predicate Calm(cs: seq<Cand>)
  {
    forall k :: 0 <= k < |cs| ==> cs[k].Item? || cs[k].Skip?
  }

  /** Item k of the directory carries offset k + 2. */
  predicate Numbered(cs: seq<Cand>)
  {
    forall k :: 0 <= k < |cs| ==> cs[k].Item? ==> cs[k].item.offset == k + 2
  }

  /**
   * `enumerate().skip(s)`: drops the first `s` candidates without looking at
   * their names, but a panic of the iterator itself still happens.
   */
  function Drop(cs: seq<Cand>, s: nat): (r: seq<Cand>)
    ensures Calm(cs) && s <= |cs| ==> r == cs[s..]
    ensures Calm(cs) && s > |cs| ==> r == []
    ensures |r| <= |cs|
    decreases s
  {
    if s == 0 || |cs| == 0 || cs[0].IterPanic? then cs else Drop(cs[1..], s - 1)
  }

  /**
   * The loop body of a listing: add each item in turn and stop at the first one
   * the buffer has no room for; `None` when a panic is met first.
   */
  function Fill(items: seq<DirItem>, cs: seq<Cand>, cap: nat): (r: Option<seq<DirItem>>)
    ensures r.Some? ==> |items| <= |r.value| && r.value[..|items|] == items
    ensures r.Some? && |items| <= cap ==> |r.value| <= cap
    ensures Calm(cs) ==> r.Some?
    decreases |cs|
  {
    if |cs| == 0 then Some(items)
    else match cs[0]
      case Skip => Fill(items, cs[1..], cap)
      case Item(d) =>
        var added := Add(items, cap, d);
        if added.1 then Some(items)
        else
          var r := Fill(added.0, cs[1..], cap);
          assert r.Some? ==> r.value[..|items|] == r.value[..|added.0|][..|items|];
          r
      case PathPanic => None
      case IterPanic => None
  }

  /** How many more items fit in the buffer. */
  function Room(items: seq<DirItem>, cap: nat): (n: nat)
    ensures |items| + n >= cap && (n > 0 ==> |items| + n == cap)
  {
    if |items| >= cap then 0 else cap - |items|
  }

  function Min(a: nat, b: nat): (m: nat)
    ensures m <= a && m <= b && (m == a || m == b)
  {
    if a <= b then a else b
  }

  /**
   * What a calm listing adds: the present items in order, as many as fit in the
   * room left in the buffer.
   */
  lemma {:induction false} FillTakes(items: seq<DirItem>, cs: seq<Cand>, cap: nat)
    requires Calm(cs)
    ensures Fill(items, cs, cap) == Some(items + Present(cs)[..Min(|Present(cs)|, Room(items, cap))])
    decreases |cs|
  {
    if |cs| > 0 {
      assert Calm(cs[1..]) by {
        forall k | 0 <= k < |cs[1..]|
          ensures cs[1..][k].Item? || cs[1..][k].Skip?
        {
          assert cs[1..][k] == cs[k + 1];
        }
      }
      if cs[0].Skip? {
        FillTakes(items, cs[1..], cap);
        assert Present(cs) == Present(cs[1..]);
      } else if |items| < cap {
        FillTakes(items + [cs[0].item], cs[1..], cap);
        assert Present(cs) == [cs[0].item] + Present(cs[1..]);
        TakeOneMore(items, cs[0].item, Present(cs[1..]), cap);
      } else {
        assert Room(items, cap) == 0;
        assert items + Present(cs)[..0] == items;
      }
    }
  }

  /** Taking an item that fits, then as many of the rest as the remaining room allows. */
  lemma TakeOneMore(items: seq<DirItem>, d: DirItem, p: seq<DirItem>, cap: nat)
    requires |items| < cap
    ensures items + [d] + p[..Min(|p|, Room(items + [d], cap))] == items + ([d] + p)[..Min(|[d] + p|, Room(items, cap))]
  {
    var n := Min(|p|, Room(items + [d], cap));
    assert Min(|[d] + p|, Room(items, cap)) == n + 1;
    assert ([d] + p)[..n + 1] == [d] + p[..n];
  }

  /** The names "." and "..", as path bytes. */
  const Dot: OsName := [0x2e]
  const DotDot: OsName := [0x2e, 0x2e]

  /** The entries "." (this directory, `self`) and ".." (its parent, `up`). */
  function Dots(self: nat, up: nat): (r: seq<DirItem>)
    ensures |r| == 2 && r[0].offset == 0 && r[1].offset == 1
    ensures r[0].name == Dot && r[0].ino == self && r[1].name == DotDot && r[1].ino == up
  {
    [DirItem(self, 0, Directory, Dot), DirItem(up, 1, Directory, DotDot)]
  }

  /** The number of items a call with `offset` skips: `offset - 1`, after the first call's bump to 1. */
  function Resume(offset: nat): (s: nat)
    ensures offset > 0 ==> s + 1 == offset
  {
    (if offset == 0 then 1 else offset) - 1
  }

  /**
   * One `readdir` call: on the first call (`offset == 0`) the dots are added
   * (their "full" answers are not looked at), then the items after the skipped
   * ones fill the buffer.
   */
  function Page(cs: seq<Cand>, offset: nat, cap: nat, self: nat, up: nat): (r: Option<seq<DirItem>>)
    ensures r.Some? && offset > 0 ==> |r.value| <= cap
  {
    var dots := Dots(self, up);
    var start := if offset == 0 then Add(Add([], cap, dots[0]).0, cap, dots[1]).0 else [];
    Fill(start, Drop(cs, Resume(offset)), cap)
  }

  /**
   * The first page: with room for the dots, it holds the dots and then the
   * first items of the directory, as many as fit.
   */
  lemma FirstPage(cs: seq<Cand>, cap: nat, self: nat, up: nat)
    requires Calm(cs) && cap >= 2
    ensures Page(cs, 0, cap, self, up)
              == Some(Dots(self, up) + Present(cs)[..Min(|Present(cs)|, cap - 2)])
  {
    var dots := Dots(self, up);
    assert Add(Add([], cap, dots[0]).0, cap, dots[1]).0 == dots;
    FillTakes(dots, cs, cap);
  }

  /** A calm listing stays calm after dropping a prefix. */
  lemma CalmSuffix(cs: seq<Cand>, s: nat)
    requires Calm(cs) && s <= |cs|
    ensures Calm(cs[s..])
  {
    forall k | 0 <= k < |cs[s..]|
      ensures cs[s..][k].Item? || cs[s..][k].Skip?
    {
      assert cs[s..][k] == cs[s + k];
    }
  }

  /** A page of a calm listing never panics, whatever the offset and the room. */
  lemma PageCalm(cs: seq<Cand>, offset: nat, cap: nat, self: nat, up: nat)
    requires Calm(cs)
    ensures Page(cs, offset, cap, self, up).Some?
  {
    if Resume(offset) <= |cs| {
      CalmSuffix(cs, Resume(offset));
    }
  }

  /**
   * A later page from `offset`: the items after the `offset - 1` skipped ones,
   * as many as fit.
   */
  lemma LaterPage(cs: seq<Cand>, offset: nat, cap: nat, self: nat, up: nat)
    requires Calm(cs) && 0 < offset <= |cs| + 1
    ensures Page(cs, offset, cap, self, up)
              == Some(Present(cs[offset - 1..])[..Min(|Present(cs[offset - 1..])|, cap)])
  {
    FillTakes([], cs[offset - 1..], cap);
  }

  /**
   * Resuming after an item: in a numbered listing, the item i of the present
   * items after position `s` has offset o, and the present items after
   * position o - 1 are exactly the ones that follow it.
   */
  lemma {:induction false} ResumeAfter(cs: seq<Cand>, s: nat, i: nat)
    requires Numbered(cs) && s <= |cs| && i < |Present(cs[s..])|
    ensures s + 2 <= Present(cs[s..])[i].offset <= |cs| + 1
    ensures Present(cs[Present(cs[s..])[i].offset - 1..]) == Present(cs[s..])[i + 1..]
    decreases |cs| - s
  {
    var p := Present(cs[s..]);
    assert cs[s..][1..] == cs[s + 1..];
    assert p == (if cs[s].Item? then [cs[s].item] else []) + Present(cs[s + 1..]);
    if cs[s].Item? && i == 0 {
      assert p[0] == cs[s].item;
    } else if cs[s].Item? {
      ResumeAfter(cs, s + 1, i - 1);
      assert p[i] == Present(cs[s + 1..])[i - 1];
    } else {
      ResumeAfter(cs, s + 1, i);
    }
  }

  /** The page requested with the offset of item i of the present items after position `s`. */
  lemma PageAfter(cs: seq<Cand>, s: nat, i: nat, cap: nat, self: nat, up: nat)
    requires Calm(cs) && Numbered(cs) && s <= |cs| && i < |Present(cs[s..])|
    ensures var p := Present(cs[s..]);
            && 0 < p[i].offset - 1 <= |cs|
            && Present(cs[p[i].offset - 1..]) == p[i + 1..]
            && Page(cs, p[i].offset, cap, self, up) == Some(p[i + 1..][..Min(|p[i + 1..]|, cap)])
  {
    ResumeAfter(cs, s, i);
    LaterPage(cs, Present(cs[s..])[i].offset, cap, self, up);
  }

  /**
   * Successive pages emit every item once, in order: when a page from
   * `offset` returns some items of the directory, the page requested with the
   * offset of its last item starts with the item right after it.
   */
  lemma PagesContinue(cs: seq<Cand>, offset: nat, cap: nat, self: nat, up: nat)
    requires Calm(cs) && Numbered(cs) && Resume(offset) <= |cs|
    requires var n := Min(|Present(cs[Resume(offset)..])|, Room(if offset == 0 then Dots(self, up) else [], cap));
             n > 0
    ensures var p := Present(cs[Resume(offset)..]);
            var n := Min(|p|, Room(if offset == 0 then Dots(self, up) else [], cap));
            var last := p[n - 1].offset;
            && 0 < last - 1 <= |cs|
            && Present(cs[last - 1..]) == p[n..]
            && Page(cs, last, cap, self, up) == Some(p[n..][..Min(|p[n..]|, cap)])
  {
    var s := Resume(offset);
    var p := Present(cs[s..]);
    var n := Min(|p|, Room(if offset == 0 then Dots(self, up) else [], cap));
    PageAfter(cs, s, n - 1, cap, self, up);
  }

  /**
   * The loop of `readdir_root`: a running offset, bumped before each snapshot
   * and used as both its inode and its offset, over the snapshot names left
   * after the skip.
   */
  function RootLoop(items: seq<DirItem>, names: seq<OsName>, offset: nat, cap: nat): (r: seq<DirItem>)
    ensures |items| <= |r| && r[..|items|] == items
    decreases |names|
  {
    if |names| == 0 then items
    else
      var o := offset + 1;
      var added := Add(items, cap, DirItem(o, o, Directory, names[0]));
      if added.1 then items
      else
        var r := RootLoop(added.0, names[1..], o, cap);
        assert r[..|items|] == r[..|added.0|][..|items|];
        r
  }

  /** The snapshot directories as listing candidates: snapshot k has inode and offset k + 2. */
  function RootCands(names: seq<OsName>): (cs: seq<Cand>)
    ensures |cs| == |names| && Calm(cs) && Numbered(cs)
    ensures forall k :: 0 <= k < |cs| ==> cs[k] == Item(DirItem(k + 2, k + 2, Directory, names[k]))
  {
    seq(|names|, k requires 0 <= k < |names| => Item(DirItem(k + 2, k + 2, Directory, names[k])))
  }

  /**
   * The running offset of `readdir_root` numbers the snapshots as the
   * enumerated listings do: looping from snapshot `j` with the counter at
   * `j + 1` adds what filling from candidate `j` adds.
   */
  lemma {:induction false} RootLoopNumbered(items: seq<DirItem>, names: seq<OsName>, j: nat, cap: nat)
    requires j <= |names|
    ensures Fill(items, RootCands(names)[j..], cap) == Some(RootLoop(items, names[j..], j + 1, cap))
    decreases |names| - j
  {
    var cs := RootCands(names)[j..];
    if j < |names| {
      assert cs[0] == Item(DirItem(j + 2, j + 2, Directory, names[j]));
      assert cs[1..] == RootCands(names)[j + 1..];
      assert names[j..][1..] == names[j + 1..];
      var added := Add(items, cap, DirItem(j + 2, j + 2, Directory, names[j]));
      RootLoopNumbered(added.0, names, j + 1, cap);
    }
  }
}
