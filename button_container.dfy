/** How an answer's rich-text element gets the copier's button container
    (src/index.ts, inside `processVisibleAnswers`): an element whose first
    child already is a copier container is skipped; otherwise the copier
    buttons directly after the first child are removed, left over from an
    earlier pass, and a fresh container is put in front. */
module ButtonContainer {
  import opened Dom

  /** The children after the leading run of copier buttons. */
  function DropButtons(children: seq<Element>): (rest: seq<Element>)
    ensures |rest| <= |children|
    ensures rest == [] || !IsCopierButton(rest[0])
    decreases |children|
  {
    if children != [] && IsCopierButton(children[0]) then DropButtons(children[1..]) else children
  }

  /** What is dropped is the leading run of copier buttons; what is left is
      the rest, untouched, and does not start with a copier button. */
  lemma {:induction false} DropButtonsShape(children: seq<Element>)
    ensures |DropButtons(children)| <= |children|
    ensures DropButtons(children) == children[|children| - |DropButtons(children)|..]
    ensures forall k :: 0 <= k < |children| - |DropButtons(children)| ==> IsCopierButton(children[k])
    ensures DropButtons(children) == [] || !IsCopierButton(DropButtons(children)[0])
    decreases |children|
  {
    if children != [] && IsCopierButton(children[0]) {
      var tail := children[1..];
      DropButtonsShape(tail);
      var rest := DropButtons(tail);
      assert DropButtons(children) == rest;
      assert tail[|tail| - |rest|..] == children[|children| - |rest|..];
      forall k | 0 < k < |children| - |rest| ensures IsCopierButton(children[k]) {
        assert children[k] == tail[k - 1];
      }
    }
  }

  /** The children once the pruning loop is done: the first child stays,
      then the maximal run of copier buttons after it is gone, and the rest
      is untouched. */
  function Pruned(children: seq<Element>): (p: seq<Element>)
    ensures |p| <= |children|
    ensures children != [] ==> p != [] && p[0] == children[0]
    ensures |p| > 1 ==> !IsCopierButton(p[1])
  {
    if |children| <= 1 then children else [children[0]] + DropButtons(children[1..])
  }

  /** What pruning keeps and removes, stated directly: child 0 is kept, some
      run `children[1..j]` of copier buttons is removed, and it is maximal. */
  lemma {:induction false} PrunedShape(children: seq<Element>)
    requires |children| >= 1
    ensures Pruned(children)[0] == children[0]
    ensures exists j :: 1 <= j <= |children| &&
              Pruned(children) == [children[0]] + children[j..] &&
              (forall k :: 1 <= k < j ==> IsCopierButton(children[k])) &&
              (j == |children| || !IsCopierButton(children[j]))
  {
    if |children| == 1 {
      assert Pruned(children) == [children[0]] + children[1..];
    } else {
      DropButtonsShape(children[1..]);
      var rest := DropButtons(children[1..]);
      var j := |children| - |rest|;
      assert children[1..][|children| - 1 - |rest|..] == children[j..];
      forall k | 1 <= k < j ensures IsCopierButton(children[k]) {
        assert children[k] == children[1..][k - 1];
      }
      assert Pruned(children) == [children[0]] + children[j..];
    }
  }

  /** Pruning twice removes nothing more. */
  lemma {:induction false} PrunedIdempotent(children: seq<Element>)
    ensures Pruned(Pruned(children)) == Pruned(children)
  {
    if |children| > 1 {
      var p := Pruned(children);
      DropButtonsShape(children[1..]);
      assert p[1..] == DropButtons(children[1..]);
      if |p| > 1 {
        assert DropButtons(p[1..]) == p[1..];
      }
    }
  }

  /** After the container is put in front of a pruned element whose first
      child is not a copier button, the element starts with exactly one
      copier button, and the next pass skips it. */
  lemma {:induction false} InstalledOnce(children: seq<Element>, container: Element)
    requires children != [] && !IsCopierButton(children[0])
    requires IsCopierButton(container)
    ensures IsCopierButton(([container] + Pruned(children))[0])
    ensures !IsCopierButton(([container] + Pruned(children))[1])
    ensures |children| > 1 && |Pruned(children)| > 1 ==> !IsCopierButton(([container] + Pruned(children))[2])
  {
    var p := Pruned(children);
    var installed := [container] + p;
    assert installed[1] == p[0] == children[0];
    if |children| > 1 {
      DropButtonsShape(children[1..]);
      var rest := DropButtons(children[1..]);
      assert p == [children[0]] + rest;
      if |p| > 1 {
        assert installed[2] == rest[0];
      }
    }
  }

  /** The rich-text element being prepared. */
  class RichText {
    var children: seq<Element>

    constructor (children: seq<Element>)
      ensures this.children == children
    {
      this.children := children;
    }

    /** The loop over a snapshot of the children from index 1, removing each
        copier button until the first other element. Removed buttons sit
        right after the first child, so each `el.remove()` takes the live
        child at index 1. */
    method PruneDuplicateButtons()
      modifies this
      ensures children == Pruned(old(children))
    {
      var snapshot := children;
      if |snapshot| <= 1 {
        return;
      }
      var i := 1;
      while i < |snapshot|
        invariant 1 <= i <= |snapshot|
        invariant children == snapshot[..1] + snapshot[i..]
        invariant DropButtons(snapshot[1..]) == DropButtons(snapshot[i..])
      {
        var el := snapshot[i];
        if IsCopierButton(el) {
          assert snapshot[i..][1..] == snapshot[i + 1..];
          assert DropButtons(snapshot[i..]) == DropButtons(snapshot[i + 1..]);
          children := children[..1] + children[2..];
          assert children == snapshot[..1] + snapshot[i + 1..];
        } else {
          assert DropButtons(snapshot[i..]) == snapshot[i..];
          break;
        }
        i := i + 1;
      }
    }

    /** One pass of `processVisibleAnswers` over this element: skipped when
        its first child is a copier container, otherwise pruned and given a
        new container in front. */
    method Prepare(container: Element) returns (prepared: bool)
      requires IsCopierButton(container)
      modifies this
      ensures prepared <==> !(old(children) != [] && IsCopierButton(old(children)[0]))
      ensures prepared ==> children == [container] + Pruned(old(children))
      ensures !prepared ==> children == old(children)
    {
      if children != [] && IsCopierButton(children[0]) {
        return false;
      }
      PruneDuplicateButtons();
      children := [container] + children;
      return true;
    }
  }
}
