/** The renderer's references to drawing contexts, and the objects it makes from them. */
module RendererContexts {
  import opened Wrappers

  /** Reference-counted objects, by kind. */
  datatype Obj = Cairo(id: nat) | Pango(id: nat) | Layout(id: nat) | TextRenderer(id: nat)

  class Renderer {
    var cr: Option<Obj>
    var pc: Option<Obj>
    var pl: Option<Obj>
    var pr: Option<Obj>
    var pcFromCr: bool

    /** References to every live object, whoever holds them. */
    var refs: map<Obj, nat>

    /** What a layout or a text renderer keeps a reference to. */
    var parent: map<Obj, Obj>

    /** No object with this number or a higher one exists. */
    var next: nat

    function Count(x: Obj): nat
      reads this
    {
      if x in refs then refs[x] else 0
    }

    /** References to x held by the renderer itself or by the two objects it has made. */
    ghost function Held(x: Obj): nat
      reads this
    {
      (if cr == Some(x) then 1 else 0) + (if pc == Some(x) then 1 else 0)
      + (if pl == Some(x) then 1 else 0) + (if pr == Some(x) then 1 else 0)
      + (if pl.Some? && pl.value in parent && parent[pl.value] == x then 1 else 0)
      + (if pr.Some? && pr.value in parent && parent[pr.value] == x then 1 else 0)
    }

    /** References held by others. */
    ghost function Spare(x: Obj): int
      reads this
    {
      Count(x) - Held(x)
    }

    /** Nothing held has been released: every held reference is counted. */
    ghost predicate Valid()
      reads this
    {
      && (cr.Some? ==> cr.value.Cairo?) && (pc.Some? ==> pc.value.Pango?)
      && (pl.Some? ==> pl.value.Layout? && Count(pl.value) == 1 && pl.value in parent && parent[pl.value].Pango?)
      && (pr.Some? ==> pr.value.TextRenderer? && Count(pr.value) == 1 && pr.value in parent && parent[pr.value].Cairo?)
      && (forall x :: x in refs ==> 0 < refs[x] && x.id < next)
      && (forall x :: 0 <= Spare(x))
    }

    /** Everything that can exist does: the layout is for the current Pango context, the text renderer for
        the current Cairo context. */
    ghost predicate Complete()
      reads this
    {
      && Valid() && (cr.Some? ==> pc.Some? && pr.Some?) && (pc.Some? ==> pl.Some?)
      && (pl.Some? ==> pc == Some(parent[pl.value])) && (pr.Some? ==> cr == Some(parent[pr.value]))
    }

    constructor ()
      ensures Complete() && cr.None? && pc.None? && pl.None? && pr.None? && refs == map[]
    {
      cr, pc, pl, pr := None, None, None, None;
      pcFromCr := false;
      refs, parent, next := map[], map[], 0;
    }

    method Ref(x: Obj)
      requires x in refs
      modifies this`refs
      ensures refs == old(refs)[x := old(refs[x]) + 1]
    {
      refs := refs[x := refs[x] + 1];
    }

    /** Releasing a reference to a context; the last one ends it. */
    method UnrefContext(x: Obj)
      requires x in refs && refs[x] > 0
      modifies this`refs
      ensures refs == if old(refs[x]) == 1 then old(refs) - {x} else old(refs)[x := old(refs[x]) - 1]
    {
      refs := if refs[x] == 1 then refs - {x} else refs[x := refs[x] - 1];
    }

    /** Releasing the only reference to a layout or a text renderer, which releases its context. */
    method UnrefMade(x: Obj)
      requires x in refs && refs[x] == 1 && x in parent && parent[x] in refs && refs[parent[x]] > 0 && parent[x] != x
      modifies this`refs
      ensures var p := parent[x]; var rest := old(refs) - {x};
        refs == if old(refs[p]) == 1 then rest - {p} else rest[p := old(refs[p]) - 1]
    {
      refs := refs - {x};
      UnrefContext(parent[x]);
    }

    method ReleaseCairo()
      requires Valid()
      modifies this`refs, this`cr
      ensures forall x :: Spare(x) == old(Spare(x))
      ensures Valid() && cr.None?
    {
      if cr.Some? {
        assert Held(cr.value) > 0 && 0 <= Spare(cr.value);
        UnrefContext(cr.value);
        cr := None;
      }
    }

    method ReleasePango()
      requires Valid()
      modifies this`refs, this`pc
      ensures forall x :: Spare(x) == old(Spare(x))
      ensures Valid() && pc.None?
    {
      if pc.Some? {
        assert Held(pc.value) > 0 && 0 <= Spare(pc.value);
        UnrefContext(pc.value);
        pc := None;
      }
    }

    method ReleaseTextRenderer()
      requires Valid()
      modifies this`refs, this`pr
      ensures forall x :: Spare(x) == old(Spare(x))
      ensures Valid() && pr.None?
    {
      if pr.Some? {
        assert Held(parent[pr.value]) > 0 && 0 <= Spare(parent[pr.value]);
        UnrefMade(pr.value);
        pr := None;
      }
    }

    method ReleaseLayout()
      requires Valid()
      modifies this`refs, this`pl
      ensures forall x :: Spare(x) == old(Spare(x))
      ensures Valid() && pl.None?
    {
      if pl.Some? {
        assert Held(parent[pl.value]) > 0 && 0 <= Spare(parent[pl.value]);
        UnrefMade(pl.value);
        pl := None;
      }
    }

    /** First part of the update: a new Cairo context replaces the current one and what depends on it. */
    method ReplaceCairo(newCr: Obj)
      requires Valid() && newCr.Cairo? && Spare(newCr) > 0
      modifies this`refs, this`cr, this`pc, this`pl, this`pr
      ensures forall x :: Spare(x) == old(Spare(x)) - if x == newCr then 1 else 0
      ensures Valid() && cr == Some(newCr) && pr.None?
      ensures if pcFromCr then pc.None? && pl.None? else pc == old(pc) && pl == old(pl)
    {
      ReleaseCairo();
      ReleaseTextRenderer();
      if pcFromCr {
        ReleasePangoParts();
      }
      Adopt(newCr);
    }

    /** A reference already counted becomes the renderer's. */
    method Adopt(newCr: Obj)
      requires Valid() && cr.None? && newCr.Cairo? && Spare(newCr) > 0
      modifies this`cr
      ensures forall x :: Spare(x) == old(Spare(x)) - if x == newCr then 1 else 0
      ensures Valid() && cr == Some(newCr)
    {
      cr := Some(newCr);
    }

    method ReleasePangoParts()
      requires Valid()
      modifies this`refs, this`pc, this`pl
      ensures forall x :: Spare(x) == old(Spare(x))
      ensures Valid() && pc.None? && pl.None?
    {
      ReleasePango();
      ReleaseLayout();
    }

    /** Second part: a new Pango context replaces the current one and the layout made from it. */
    method ReplacePango(newPc: Obj)
      requires Valid() && newPc.Pango? && Spare(newPc) > 0
      modifies this`refs, this`pc, this`pl, this`pcFromCr
      ensures forall x :: Spare(x) == old(Spare(x)) - if x == newPc then 1 else 0
      ensures Valid() && pc == Some(newPc) && pl.None? && !pcFromCr
    {
      ReleasePangoParts();
      pc := Some(newPc);
      pcFromCr := false;
    }

    /** Third part: whatever is missing is made anew. */
    method Recreate()
      requires Valid()
      requires pl.Some? ==> pc == Some(parent[pl.value])
      requires pr.Some? ==> cr == Some(parent[pr.value])
      modifies this`refs, this`pc, this`pl, this`pr, this`pcFromCr, this`parent, this`next
      ensures forall x :: Spare(x) == old(Spare(x))
      ensures Complete() && (old(pc).Some? ==> pc == old(pc) && pcFromCr == old(pcFromCr))
      ensures old(pc).None? && cr.Some? ==> pcFromCr
    {
      if pc.None? && cr.Some? {
        MakePango();
      }
      if pl.None? && pc.Some? {
        MakeLayout();
      }
      if pr.None? && cr.Some? {
        MakeTextRenderer();
      }
    }

    method MakePango()
      requires Valid() && pc.None? && pl.None?
      modifies this`refs, this`pc, this`pcFromCr, this`next
      ensures forall x :: Spare(x) == old(Spare(x))
      ensures Valid() && pc.Some? && pcFromCr
    {
      var made := Pango(next);
      assert 0 <= Spare(made) && Count(made) == 0;
      refs := refs[made := 1];
      pc, pcFromCr, next := Some(made), true, next + 1;
    }

    method MakeLayout()
      requires Valid() && pl.None? && pc.Some?
      modifies this`refs, this`pl, this`parent, this`next
      ensures forall x :: Spare(x) == old(Spare(x))
      ensures Valid() && pl.Some? && pl.value in parent && parent[pl.value] == pc.value
      ensures pr.Some? ==> pr.value in parent && parent[pr.value] == old(parent)[pr.value]
    {
      var made := Layout(next);
      assert 0 <= Spare(made) && Count(made) == 0 && Held(pc.value) > 0 && 0 <= Spare(pc.value);
      Ref(pc.value);
      refs := refs[made := 1];
      parent := parent[made := pc.value];
      pl, next := Some(made), next + 1;
    }

    method MakeTextRenderer()
      requires Valid() && pr.None? && cr.Some?
      modifies this`refs, this`pr, this`parent, this`next
      ensures forall x :: Spare(x) == old(Spare(x))
      ensures Valid() && pr.Some? && pr.value in parent && parent[pr.value] == cr.value
      ensures pl.Some? ==> pl.value in parent && parent[pl.value] == old(parent)[pl.value]
    {
      var made := TextRenderer(next);
      assert 0 <= Spare(made) && Count(made) == 0 && Held(cr.value) > 0 && 0 <= Spare(cr.value);
      Ref(cr.value);
      refs := refs[made := 1];
      parent := parent[made := cr.value];
      pr, next := Some(made), next + 1;
    }

    /** A reference taken for the update, before anything is released. */
    method Retain(x: Option<Obj>)
      requires Valid() && (x.Some? ==> x.value in refs && (x.value.Cairo? || x.value.Pango?))
      modifies this`refs
      ensures forall y :: Spare(y) == old(Spare(y)) + if x == Some(y) then 1 else 0
      ensures Valid() && refs.Keys == old(refs.Keys)
    {
      if x.Some? {
        Ref(x.value);
      }
    }

    method RetainBoth(x: Option<Obj>, y: Option<Obj>)
      requires Valid() && (x.Some? ==> x.value in refs && x.value.Cairo?) &&
        (y.Some? ==> y.value in refs && y.value.Pango?)
      modifies this`refs
      ensures forall z :: Spare(z) == old(Spare(z)) + (if x == Some(z) then 1 else 0) + (if y == Some(z) then 1 else 0)
      ensures Valid()
    {
      Retain(x);
      Retain(y);
    }

    /** eda_renderer_update_contexts. The contexts passed in are alive; they may be the renderer's own. */
    method UpdateContexts(newCr: Option<Obj>, newPc: Option<Obj>)
      requires Complete()
      requires newCr.Some? ==> newCr.value.Cairo? && newCr.value in refs
      requires newPc.Some? ==> newPc.value.Pango? && newPc.value in refs
      modifies this
      ensures forall x :: Spare(x) == old(Spare(x))
      ensures Complete() && (newCr.Some? ==> cr == newCr) && (newCr.None? ==> cr == old(cr))
      ensures newPc.Some? ==> pc == newPc && !pcFromCr
      ensures newPc.None? && old(pc).Some? && !(newCr.Some? && old(pcFromCr)) ==>
        pc == old(pc) && pcFromCr == old(pcFromCr)
    {
      RetainBoth(newCr, newPc);
      Install(newCr, newPc);
    }

    method Install(newCr: Option<Obj>, newPc: Option<Obj>)
      requires Valid()
      requires pl.Some? ==> pc == Some(parent[pl.value])
      requires pr.Some? ==> cr == Some(parent[pr.value])
      requires newCr.Some? ==> newCr.value.Cairo? && Spare(newCr.value) > 0
      requires newPc.Some? ==> newPc.value.Pango? && Spare(newPc.value) > 0
      modifies this
      ensures forall x ::
        Spare(x) == old(Spare(x)) - (if newCr == Some(x) then 1 else 0) - (if newPc == Some(x) then 1 else 0)
      ensures Complete() && cr == if newCr.Some? then newCr else old(cr)
      ensures newPc.Some? ==> pc == newPc && !pcFromCr
      ensures newPc.None? && old(pc).Some? && !(newCr.Some? && old(pcFromCr)) ==>
        pc == old(pc) && pcFromCr == old(pcFromCr)
    {
      Swap(newCr, newPc);
      Recreate();
    }

    /** The references taken become the renderer's own, in place of those to the contexts they replace. */
    method Swap(newCr: Option<Obj>, newPc: Option<Obj>)
      requires Valid()
      requires pl.Some? ==> pc == Some(parent[pl.value])
      requires pr.Some? ==> cr == Some(parent[pr.value])
      requires newCr.Some? ==> newCr.value.Cairo? && Spare(newCr.value) > 0
      requires newPc.Some? ==> newPc.value.Pango? && Spare(newPc.value) > 0
      modifies this`refs, this`cr, this`pc, this`pl, this`pr, this`pcFromCr
      ensures forall x ::
        Spare(x) == old(Spare(x)) - (if newCr == Some(x) then 1 else 0) - (if newPc == Some(x) then 1 else 0)
      ensures Valid()
      ensures pl.Some? ==> pc == Some(parent[pl.value])
      ensures pr.Some? ==> cr == Some(parent[pr.value])
      ensures cr == if newCr.Some? then newCr else old(cr)
      ensures newPc.Some? ==> pc == newPc && !pcFromCr
      ensures newPc.None? && !(newCr.Some? && old(pcFromCr)) ==> pc == old(pc) && pcFromCr == old(pcFromCr)
    {
      if newCr.Some? {
        ReplaceCairo(newCr.value);
      }
      if newPc.Some? {
        ReplacePango(newPc.value);
      }
    }

    /** eda_renderer_dispose and eda_renderer_finalize: every reference is returned, and what only the
        renderer kept alive is gone. */
    method Dispose()
      requires Valid()
      modifies this`refs, this`cr, this`pc, this`pl, this`pr
      ensures Valid() && cr.None? && pc.None? && pl.None? && pr.None?
      ensures forall x :: Count(x) == old(Spare(x))
    {
      ReleasePango();
      ReleaseLayout();
      ReleaseTextRenderer();
      ReleaseCairo();
      assert forall x :: Held(x) == 0;
    }

    // ---- what callers do

    /** A caller makes a context and holds the one reference to it. */
    method Create(pango: bool) returns (made: Obj)
      requires Complete()
      modifies this`refs, this`next
      ensures made == (if pango then Pango(old(next)) else Cairo(old(next))) && made in refs
      ensures forall x :: Spare(x) == if x == made then 1 else old(Spare(x))
      ensures Complete() && cr == old(cr) && pc == old(pc) && old(Spare(made)) == 0
    {
      made := if pango then Pango(next) else Cairo(next);
      assert Count(made) == 0 && 0 <= Spare(made);
      refs := refs[made := 1];
      next := next + 1;
    }

    /** A caller takes one more reference to a context that is alive. */
    method Take(x: Obj)
      requires Complete() && x in refs && (x.Cairo? || x.Pango?)
      modifies this`refs
      ensures forall y :: Spare(y) == old(Spare(y)) + if y == x then 1 else 0
      ensures Complete()
    {
      Ref(x);
    }

    /** A caller returns a reference of its own; the renderer's references keep the context alive. */
    method Drop(x: Obj)
      requires Complete() && (x.Cairo? || x.Pango?) && Spare(x) > 0
      modifies this`refs
      ensures forall y :: Spare(y) == old(Spare(y)) - if y == x then 1 else 0
      ensures Complete()
    {
      assert x in refs && refs[x] > 0;
      UnrefContext(x);
    }

    /** One thing a caller does. What no caller can do, such as handing over a context that is gone, does not
        happen. `mine` counts the references callers hold. */
    method Act(step: Step, mine: map<Obj, nat>) returns (mine': map<Obj, nat>)
      requires Complete() && forall x :: Spare(x) == Number(mine, x)
      modifies this
      ensures Complete() && forall x :: Spare(x) == Number(mine', x)
    {
      mine' := mine;
      match step
      case New(pango) =>
        var made := Create(pango);
        mine' := mine[made := 1];
      case Grab(x) =>
        if x in refs && (x.Cairo? || x.Pango?) {
          Take(x);
          mine' := mine[x := Number(mine, x) + 1];
        }
      case Release(x) =>
        if Number(mine, x) > 0 && (x.Cairo? || x.Pango?) {
          Drop(x);
          mine' := mine[x := mine[x] - 1];
        }
      case Update(newCr, newPc) =>
        if (newCr.Some? ==> newCr.value.Cairo? && newCr.value in refs)
          && (newPc.Some? ==> newPc.value.Pango? && newPc.value in refs) {
          UpdateContexts(newCr, newPc);
        }
    }

    /** Any sequence of updates and of what callers do: nothing held is ever released, and the layout and the
        text renderer are for the current contexts. */
    method Drive(steps: seq<Step>) returns (mine: map<Obj, nat>)
      requires Complete() && forall x :: Spare(x) == 0
      modifies this
      ensures Complete() && forall x :: Spare(x) == Number(mine, x)
    {
      mine := map[];
      for i := 0 to |steps|
        invariant Complete() && forall x :: Spare(x) == Number(mine, x)
      {
        mine := Act(steps[i], mine);
      }
    }
  }

  datatype Step = New(pango: bool) | Grab(x: Obj) | Release(x: Obj) | Update(newCr: Option<Obj>, newPc: Option<Obj>)

  function Number(mine: map<Obj, nat>, x: Obj): nat {
    if x in mine then mine[x] else 0
  }

  /** A renderer's whole life: whatever happened, at the end every count is what the callers hold. */
  method Lifetime(steps: seq<Step>) returns (renderer: Renderer, mine: map<Obj, nat>)
    ensures fresh(renderer) && forall x :: renderer.Count(x) == Number(mine, x)
  {
    renderer := new Renderer();
    mine := renderer.Drive(steps);
    renderer.Dispose();
  }
}
