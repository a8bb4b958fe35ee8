/** Model inheritance: the finalisation of every loaded model, in any order, over the heap. */
module Models {
  import opened Options

  // A decoded element of a model file; what is in it does not matter here.
  datatype Element = Element(description: string)

  // A model as its file gives it; the empty identifier stands for no parent.
  datatype Source = Source(parent: string, elements: seq<Element>, ambientOcclusion: bool)
  type Sources = map<string, Source>

  // ---- Chains of parents ----------------------------------------------------------------

  // The parent is another loaded model.
  predicate HasNext(src: Sources, id: string)
    requires id in src
  {
    src[id].parent != "" && src[id].parent in src
  }

  // finalize, called on a model that is not finalised, returns within n nested calls.
  predicate EndsWithin(src: Sources, id: string, n: nat)
    requires id in src
    decreases n
  {
    n > 0 && (HasNext(src, id) ==> EndsWithin(src, src[id].parent, n - 1))
  }

  ghost predicate Ends(src: Sources, id: string)
    requires id in src
  {
    exists n :: EndsWithin(src, id, n)
  }

  lemma {:induction false} EndsMono(src: Sources, id: string, m: nat, n: nat)
    requires id in src && EndsWithin(src, id, m) && m <= n
    ensures EndsWithin(src, id, n)
    decreases m
  {
    if HasNext(src, id) {
      EndsMono(src, src[id].parent, m - 1, n - 1);
    }
  }

  ghost function Least(src: Sources, id: string, n: nat): (h: nat)
    requires id in src && EndsWithin(src, id, n)
    ensures 0 < h <= n && EndsWithin(src, id, h) && !EndsWithin(src, id, h - 1)
  {
    if EndsWithin(src, id, n - 1) then Least(src, id, n - 1) else n
  }

  // The number of models in the chain.
  ghost function Height(src: Sources, id: string): (h: nat)
    requires id in src && Ends(src, id)
    ensures 0 < h && EndsWithin(src, id, h) && !EndsWithin(src, id, h - 1)
  {
    var n :| EndsWithin(src, id, n);
    Least(src, id, n)
  }

  lemma ParentHeight(src: Sources, id: string)
    requires id in src && HasNext(src, id) && Ends(src, id)
    ensures Ends(src, src[id].parent) && Height(src, src[id].parent) == Height(src, id) - 1
  {
    var h, p := Height(src, id), src[id].parent;
    assert EndsWithin(src, p, h - 1) && !(h - 1 > 0 && EndsWithin(src, p, h - 2));
    var g := Height(src, p);
    if g < h - 1 {
      EndsMono(src, p, g, h - 2);
    } else if h - 1 < g {
      EndsMono(src, p, h - 1, g - 1);
    }
  }

  // The model, its parent, and so on.
  ghost function Chain(src: Sources, id: string): (c: seq<string>)
    requires id in src && Ends(src, id)
    ensures |c| == Height(src, id) && c[0] == id && forall x :: x in c ==> x in src
    decreases Height(src, id)
  {
    if HasNext(src, id) then
      ParentHeight(src, id);
      [id] + Chain(src, src[id].parent)
    else
      assert EndsWithin(src, id, 1);
      assert !(Height(src, id) - 1 > 0);
      [id]
  }

  lemma {:induction false} ChainHeights(src: Sources, id: string, i: nat)
    requires id in src && Ends(src, id) && i < |Chain(src, id)|
    ensures var x := Chain(src, id)[i]; Ends(src, x) && Height(src, x) == Height(src, id) - i
    decreases i
  {
    if i > 0 {
      ParentHeight(src, id);
      ChainHeights(src, src[id].parent, i - 1);
    }
  }

  lemma ChainIsDistinct(src: Sources, id: string, i: nat, j: nat)
    requires id in src && Ends(src, id) && i < j < |Chain(src, id)|
    ensures Chain(src, id)[i] != Chain(src, id)[j]
  {
    ChainHeights(src, id, i);
    ChainHeights(src, id, j);
  }

  // ---- What every model must end as --------------------------------------------------------

  datatype Final = Final(elements: seq<Element>, ambientOcclusion: bool)

  // The model that stands for a missing one.
  const SENTINEL := Final([], true)

  // As finalize computes it: the parent's values come into the child.
  ghost function Inherited(src: Sources, id: string): Final
    requires id in src && Ends(src, id)
    decreases Height(src, id)
  {
    var own := src[id];
    if own.parent == "" then Final(own.elements, own.ambientOcclusion)
    else
      var up := if own.parent in src then ParentHeight(src, id); Inherited(src, own.parent) else SENTINEL;
      Final(if own.elements == [] then up.elements else own.elements, up.ambientOcclusion)
  }

  // The first model of the chain, from index i on, that has elements of its own.
  ghost predicate FirstWithElements(src: Sources, c: seq<string>, i: nat)
    requires forall x :: x in c ==> x in src
  {
    && i < |c| && src[c[i]].elements != []
    && forall j :: 0 <= j < i ==> src[c[j]].elements == []
  }

  // The elements are those of the nearest ancestor-or-self that has any,
  lemma {:induction false} ElementsAreNearest(src: Sources, id: string, i: nat)
    requires id in src && Ends(src, id)
    requires FirstWithElements(src, Chain(src, id), i)
    ensures Inherited(src, id).elements == src[Chain(src, id)[i]].elements
    decreases i
  {
    var c := Chain(src, id);
    if i > 0 {
      assert src[c[0]].elements == [];
      var p := src[id].parent;
      ParentHeight(src, id);
      forall j | 0 <= j < i - 1 ensures src[Chain(src, p)[j]].elements == [] {
        assert c[j + 1] == Chain(src, p)[j];
      }
      ElementsAreNearest(src, p, i - 1);
    }
  }

  // and none if no model of the chain has any.
  lemma {:induction false} NoElementsAnywhere(src: Sources, id: string)
    requires id in src && Ends(src, id)
    requires forall x :: x in Chain(src, id) ==> src[x].elements == []
    ensures Inherited(src, id).elements == []
    decreases Height(src, id)
  {
    assert id == Chain(src, id)[0];
    if HasNext(src, id) {
      ParentHeight(src, id);
      NoElementsAnywhere(src, src[id].parent);
    }
  }

  // The flag is that of the top of the chain; the sentinel's, if the top names a parent that
  // is not there.
  lemma {:induction false} FlagIsOfTheTop(src: Sources, id: string)
    requires id in src && Ends(src, id)
    ensures var top := Chain(src, id)[|Chain(src, id)| - 1];
            Inherited(src, id).ambientOcclusion ==
            if src[top].parent == "" then src[top].ambientOcclusion else SENTINEL.ambientOcclusion
    decreases Height(src, id)
  {
    if HasNext(src, id) {
      ParentHeight(src, id);
      FlagIsOfTheTop(src, src[id].parent);
    }
  }

  // ---- When finalize returns -----------------------------------------------------------------

  // The model n parents up.
  function Up(src: Sources, id: string, n: nat): Option<string>
    requires id in src
    decreases n
  {
    if n == 0 then Some(id)
    else if HasNext(src, id) then Up(src, src[id].parent, n - 1)
    else None
  }

  lemma {:induction false} EndsWithinIsUp(src: Sources, id: string, n: nat)
    requires id in src
    ensures EndsWithin(src, id, n) <==> Up(src, id, n).None?
    decreases n
  {
    if n > 0 && HasNext(src, id) {
      EndsWithinIsUp(src, src[id].parent, n - 1);
    }
  }

  lemma {:induction false} UpInside(src: Sources, id: string, n: nat)
    requires id in src && Up(src, id, n).Some?
    ensures Up(src, id, n).value in src
    decreases n
  {
    if n > 0 {
      UpInside(src, src[id].parent, n - 1);
    }
  }

  lemma {:induction false} UpAdds(src: Sources, id: string, m: nat, n: nat)
    requires id in src && Up(src, id, m).Some?
    ensures Up(src, id, m).value in src
    ensures Up(src, id, m + n) == Up(src, Up(src, id, m).value, n)
    decreases m
  {
    if m > 0 {
      UpAdds(src, src[id].parent, m - 1, n);
    }
  }

  // A chain that meets itself goes round for ever.
  lemma {:induction false} RoundForEver(src: Sources, id: string, n: nat, k: nat)
    requires id in src && n > 0 && Up(src, id, n) == Some(id)
    ensures Up(src, id, k).Some?
    decreases k
  {
    if k <= n {
      if Up(src, id, k).None? {
        UpStaysNone(src, id, k, n);
      }
    } else {
      UpAdds(src, id, n, k - n);
      RoundForEver(src, id, n, k - n);
    }
  }

  lemma {:induction false} UpStaysNone(src: Sources, id: string, m: nat, n: nat)
    requires id in src && Up(src, id, m).None? && m <= n
    ensures Up(src, id, n).None?
    decreases m
  {
    if HasNext(src, id) {
      UpStaysNone(src, src[id].parent, m - 1, n - 1);
    }
  }

  ghost predicate Repeats(src: Sources, id: string, i: nat, j: nat)
    requires id in src
  {
    i < j && Up(src, id, i).Some? && Up(src, id, i) == Up(src, id, j)
  }

  lemma RepeatNeverEnds(src: Sources, id: string, i: nat, j: nat)
    requires id in src && Repeats(src, id, i, j)
    ensures !Ends(src, id)
  {
    var x := Up(src, id, i).value;
    UpAdds(src, id, i, j - i);
    forall n ensures !EndsWithin(src, id, n) {
      RoundForEver(src, x, j - i, n);
      UpAdds(src, id, i, n);
      if EndsWithin(src, id, n) {
        EndsWithinIsUp(src, id, n);
        UpStaysNone(src, id, n, i + n);
      }
    }
  }

  // So many different models cannot be.
  lemma {:induction false} Pigeonhole(src: Sources, id: string, n: nat)
    requires id in src && Up(src, id, n).Some?
    requires forall i: nat, j: nat :: i < j <= n ==> !Repeats(src, id, i, j)
    ensures n < |src|
  {
    forall i: nat | i <= n ensures Up(src, id, i).Some? {
      if Up(src, id, i).None? {
        UpStaysNone(src, id, i, n);
      }
    }
    var seen := {};
    var k := 0;
    while k <= n
      invariant k <= n + 1 && |seen| == k && seen <= src.Keys
      invariant forall x :: x in seen ==> exists i: nat :: i < k && Up(src, id, i) == Some(x)
    {
      var x := Up(src, id, k).value;
      UpInside(src, id, k);
      forall i: nat | i < k ensures Up(src, id, i) != Some(x) {
        assert !Repeats(src, id, i, k);
      }
      seen := seen + {x};
      k := k + 1;
    }
    Subset(seen, src.Keys);
  }

  lemma {:induction false} Subset<T>(a: set<T>, b: set<T>)
    requires a <= b
    ensures |a| <= |b|
  {
    if a != {} {
      var x :| x in a;
      Subset(a - {x}, b - {x});
    }
  }

  // finalize returns from a model exactly when no model occurs twice among it and its
  // ancestors; and if it returns, it nests no deeper than there are models.
  lemma ReturnsIffAcyclic(src: Sources, id: string)
    requires id in src
    ensures Ends(src, id) <==> forall i: nat, j: nat :: !Repeats(src, id, i, j)
    ensures Ends(src, id) <==> EndsWithin(src, id, |src|)
  {
    forall i: nat, j: nat | Repeats(src, id, i, j) ensures !Ends(src, id) {
      RepeatNeverEnds(src, id, i, j);
    }
    if forall i: nat, j: nat :: !Repeats(src, id, i, j) {
      if Up(src, id, |src|).Some? {
        Pigeonhole(src, id, |src|);
      }
      EndsWithinIsUp(src, id, |src|);
    }
  }
}

/** model_object::finalize and the loop of manager::load, on the objects themselves. */
module ModelLoading {
  import opened Models
  import opened Options

  datatype LoadData = LoadData(parent: string, elements: seq<Element>)

  class ModelObject {
    var loadData: Option<LoadData>
    var ambientOcclusion: bool
    var elements: seq<Element>

    constructor (loadData: Option<LoadData>, ambientOcclusion: bool)
      ensures this.loadData == loadData && this.ambientOcclusion == ambientOcclusion && elements == []
    {
      this.loadData, this.ambientOcclusion, elements := loadData, ambientOcclusion, [];
    }

    predicate Finalized()
      reads this
    {
      loadData.None?
    }

    // As the file was loaded, or as it must end.
    ghost predicate IsRaw(s: Source)
      reads this
    {
      loadData == Some(LoadData(s.parent, s.elements)) && elements == [] && ambientOcclusion == s.ambientOcclusion
    }

    ghost predicate IsDone(f: Final)
      reads this
    {
      loadData.None? && Final(elements, ambientOcclusion) == f
    }

    method Finalize(mgr: Manager, ghost id: string)
      requires mgr.Wf() && id in mgr.models && mgr.models[id] == this && Ends(mgr.src, id)
      requires mgr.sentinel.IsDone(SENTINEL)
      requires forall x :: x in Chain(mgr.src, id) ==> mgr.Ok(x)
      modifies mgr.Objects(Chain(mgr.src, id))
      ensures IsDone(Inherited(mgr.src, id))
      ensures forall x :: x in Chain(mgr.src, id) ==>
                mgr.Ok(x) && (old(mgr.models[x].loadData.None?) ==> unchanged(mgr.models[x]))
      decreases Height(mgr.src, id)
    {
      ghost var src, c := mgr.src, Chain(mgr.src, id);
      assert c[0] == id && id in c && mgr.Ok(id);
      if Finalized() {
        return;
      }
      elements := loadData.value.elements;
      var parentId := loadData.value.parent;
      if parentId != "" {
        var parent := mgr.Model(parentId);
        if HasNext(src, id) {
          ParentHeight(src, id);
          mgr.ParentChain(id);
          assert parentId in c;
        }
        if !parent.Finalized() {
          parent.Finalize(mgr, parentId);
        }
        assert parent.IsDone(if parentId in src then Inherited(src, parentId) else SENTINEL);
        if elements == [] {
          elements := parent.elements;
        }
        ambientOcclusion := parent.ambientOcclusion;
      }
      loadData := None;
    }
  }

  class Manager {
    const models: map<string, ModelObject>
    const sentinel: ModelObject
    ghost const src: Sources      // what was loaded

    constructor (models: map<string, ModelObject>, sentinel: ModelObject, ghost src: Sources)
      ensures this.models == models && this.sentinel == sentinel && this.src == src
    {
      this.models, this.sentinel, this.src := models, sentinel, src;
    }

    // Each model is an object of its own, and so is the sentinel.
    ghost predicate Wf() {
      && models.Keys == src.Keys
      && (forall x, y :: x in models && y in models && models[x] == models[y] ==> x == y)
      && (forall x :: x in models ==> models[x] != sentinel)
    }

    ghost predicate Ok(id: string)
      requires Wf() && id in models
      reads models[id]
    {
      models[id].IsRaw(src[id]) || (Ends(src, id) && models[id].IsDone(Inherited(src, id)))
    }

    ghost function Objects(ids: seq<string>): set<ModelObject> {
      set x | x in ids && x in models :: models[x]
    }

    // container::operator[]
    function Model(id: string): ModelObject {
      if id == "" then sentinel
      else if id in models then models[id]
      else sentinel
    }

    lemma ParentChain(id: string)
      requires Wf() && id in models && HasNext(src, id) && Ends(src, id)
      ensures Ends(src, src[id].parent) && Chain(src, id) == [id] + Chain(src, src[id].parent)
      ensures id !in Chain(src, src[id].parent)
      ensures models[id] !in Objects(Chain(src, src[id].parent))
    {
      ParentHeight(src, id);
      var c := Chain(src, src[id].parent);
      if i: nat :| i < |c| && c[i] == id {
        assert Chain(src, id)[i + 1] == c[i];
        ChainIsDistinct(src, id, 0, i + 1);
      }
    }

    // The loop of load, over the models in any order.
    method FinalizeAll(order: seq<string>)
      requires Wf() && sentinel.IsDone(SENTINEL)
      requires forall x :: x in models <==> x in order
      requires forall x :: x in models ==> models[x].IsRaw(src[x]) && Ends(src, x)
      modifies models.Values
      ensures forall x :: x in models ==> models[x].IsDone(Inherited(src, x))
    {
      for i := 0 to |order|
        invariant sentinel.IsDone(SENTINEL)
        invariant forall x :: x in models ==> Ok(x)
        invariant forall j :: 0 <= j < i ==> models[order[j]].IsDone(Inherited(src, order[j]))
      {
        var id := order[i];
        FinalizeOne(id);
      }
    }

    method FinalizeOne(id: string)
      requires Wf() && sentinel.IsDone(SENTINEL) && id in models && Ends(src, id)
      requires forall x :: x in models ==> Ok(x)
      modifies models.Values
      ensures sentinel.IsDone(SENTINEL)
      ensures models[id].IsDone(Inherited(src, id))
      ensures forall x :: x in models ==> Ok(x) && (old(models[x].loadData.None?) ==> unchanged(models[x]))
    {
      ghost var c := Chain(src, id);
      assert Objects(c) <= models.Values;
      models[id].Finalize(this, id);
      forall x | x in models && x !in c ensures unchanged(models[x]) {
        assert models[x] !in Objects(c);
      }
    }
  }
}
