/**
 * The parts of the GUI (src/gui.cpp) that are logic rather than layout:
 * the `.png` extension test on a chosen path, and the buttons that edit
 * the list of background thresholds.
 */
module Gui {
  import opened Config

  /** `std::toupper` in the "C" locale: only `a`-`z` change. */
  function ToUpper(c: char): (u: char)
    ensures 'a' <= c <= 'z' ==> u as int == c as int - 32
    ensures !('a' <= c <= 'z') ==> u == c
  {
    if 'a' <= c <= 'z' then (c as int - 32) as char else c
  }

  /** Every character through `ToUpper`. */
  function Upper(s: string): (u: string)
    ensures |u| == |s| && forall i :: 0 <= i < |s| ==> u[i] == ToUpper(s[i])
  {
    if s == [] then [] else [ToUpper(s[0])] + Upper(s[1..])
  }

  /**
   * `std::equal` over two ranges with the predicate
   * `toupper(left) == toupper(right)`: same length, and every pair of
   * characters equal once upper-cased.
   */
  predicate EqualIgnoringCase(left: string, right: string) {
    |left| == |right| && forall i :: 0 <= i < |left| ==> ToUpper(left[i]) == ToUpper(right[i])
  }

  /**
   * `has_ext(path)`: false for fewer than four characters, otherwise the
   * last four compared with `".png"` ignoring case. The string is the
   * characters before the terminating NUL.
   */
  function HasExt(path: string): (b: bool)
    ensures b <==> |path| >= 4 && Upper(path[|path| - 4..]) == ".PNG"
  {
    var r := |path| >= 4 && EqualIgnoringCase(path[|path| - 4..], ".png");
    assert Upper(".png") == ".PNG";
    r
  }

  /** Only the extension counts: anything may come before it. */
  lemma HasExtIgnoresPrefix(prefix: string, path: string)
    requires |path| >= 4
    ensures HasExt(prefix + path) == HasExt(path)
  {
    assert (prefix + path)[|prefix + path| - 4..] == path[|path| - 4..];
  }

  /** Upper-casing the path does not change the answer. */
  lemma HasExtIgnoresCase(path: string)
    ensures HasExt(Upper(path)) == HasExt(path)
  {
    if |path| >= 4 {
      var e, u := path[|path| - 4..], Upper(path)[|path| - 4..];
      assert Upper(u) == Upper(e);
    }
  }

  /** The extension written in any mix of cases is accepted. */
  lemma HasExtAcceptsAnyCase(stem: string, ext: string)
    requires |ext| == 4 && Upper(ext) == ".PNG"
    ensures HasExt(stem + ext)
  {
    assert (stem + ext)[|stem + ext| - 4..] == ext;
  }

  /** A threshold row as the "+" button adds it: unselected, zero tolerances, range mode, enabled. */
  function NewThreshold(): (t: Threshold)
    ensures !t.selected && !t.mode && t.enabled
    ensures t.diff == Hsv(0.0, 0.0, 0.0)
  {
    Threshold(false, Hsv(0.0, 0.0, 0.0), false, true)
  }

  /** The list with the selected rows taken out, the others kept in order. */
  function Unselected(ts: seq<Threshold>): (r: seq<Threshold>)
    ensures |r| <= |ts|
  {
    if ts == [] then []
    else if ts[|ts| - 1].selected then Unselected(ts[..|ts| - 1])
    else Unselected(ts[..|ts| - 1]) + [ts[|ts| - 1]]
  }

  /** No selected row survives, and every unselected row does. */
  lemma {:induction false} UnselectedKeeps(ts: seq<Threshold>, t: Threshold)
    ensures t in Unselected(ts) <==> t in ts && !t.selected
  {
    if ts != [] {
      UnselectedKeeps(ts[..|ts| - 1], t);
      assert ts == ts[..|ts| - 1] + [ts[|ts| - 1]];
    }
  }

  /** Removal works piece by piece, so the kept rows stay in their original order. */
  lemma {:induction false} UnselectedAppend(a: seq<Threshold>, b: seq<Threshold>)
    ensures Unselected(a + b) == Unselected(a) + Unselected(b)
  {
    if b != [] {
      assert (a + b)[..|a + b| - 1] == a + b[..|b| - 1];
      UnselectedAppend(a, b[..|b| - 1]);
    } else {
      assert a + b == a;
    }
  }

  /** Pressing "-" twice removes no more than pressing it once. */
  lemma {:induction false} UnselectedIdempotent(ts: seq<Threshold>)
    ensures Unselected(Unselected(ts)) == Unselected(ts)
  {
    if ts != [] {
      var init := ts[..|ts| - 1];
      UnselectedIdempotent(init);
      if !ts[|ts| - 1].selected {
        UnselectedAppend(Unselected(init), [ts[|ts| - 1]]);
        assert Unselected([ts[|ts| - 1]]) == [ts[|ts| - 1]] by {
          assert [ts[|ts| - 1]][..0] == [];
        }
      }
    }
  }

  /** `thresholds`, the vector the background window edits. */
  class ThresholdList {
    var thresholds: seq<Threshold>

    /** The "+" button: `push_back` of a fresh row. */
    method Add()
      modifies this
      ensures thresholds == old(thresholds) + [NewThreshold()]
    {
      thresholds := thresholds + [Threshold(false, Hsv(0.0, 0.0, 0.0), false, true)];
    }

    /**
     * The "-" button: `std::remove_if` on `selected` moves each kept row
     * down to the write position, then `erase` drops the tail.
     */
    method RemoveSelected()
      modifies this
      ensures thresholds == Unselected(old(thresholds))
    {
      ghost var ts := thresholds;
      var w := 0;
      for r := 0 to |thresholds|
        invariant |thresholds| == |ts| && w <= r
        invariant thresholds[..w] == Unselected(ts[..r])
        invariant thresholds[r..] == ts[r..]
      {
        assert ts[..r + 1] == ts[..r] + [ts[r]];
        UnselectedAppend(ts[..r], [ts[r]]);
        assert Unselected([ts[r]]) == (if ts[r].selected then [] else [ts[r]]) by {
          assert [ts[r]][..0] == [];
        }
        if !thresholds[r].selected {
          thresholds := thresholds[w := thresholds[r]];
          w := w + 1;
        }
      }
      thresholds := thresholds[..w];
      assert ts[..|ts|] == ts;
    }

    /** "Clear...": `thresholds.clear()`. */
    method Clear()
      modifies this
      ensures thresholds == []
    {
      thresholds := [];
    }

    /** The mode button of row `i`: flips that row's `mode` and nothing else. */
    method ToggleMode(i: nat)
      requires i < |thresholds|
      modifies this
      ensures |thresholds| == |old(thresholds)|
      ensures thresholds[i] == old(thresholds[i]).(mode := !old(thresholds[i]).mode)
      ensures forall j :: 0 <= j < |thresholds| && j != i ==> thresholds[j] == old(thresholds[j])
    {
      var t := thresholds[i];
      thresholds := thresholds[i := t.(mode := !t.mode)];
    }
  }
}
