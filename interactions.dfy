/**
 * The selection state of the visualiser: the global `selectedBits` object
 * (one JavaScript Set of bit indices per canvas id) and the `canvasBitData`
 * Map (the bits last drawn on each canvas), declared in js/utils.js, with
 * the operations that change them: handleCanvasClick (js/interactions.js),
 * drawGridWithTracking (js/canvas-2d.js) and the per-run resets (js/app.js).
 * A Set is an object that handleCanvasClick mutates in place, so it is a
 * class here, and the state keeps the invariant that no two canvases share
 * one Set object.
 */
module Interactions {
  import opened Common
  import Canvas2D

  const AvaA: string := "ava-canvas-a"
  const AvaB: string := "ava-canvas-b"
  const Viz: string := "viz-canvas"
  const ColA: string := "col-canvas-a"
  const ColB: string := "col-canvas-b"

  /** The canvas whose selection mirrors that of an avalanche canvas. */
  function Partner(canvasId: string): (p: string)
    requires canvasId == AvaA || canvasId == AvaB
    ensures (p == AvaA || p == AvaB) && p != canvasId
  {
    if canvasId == AvaA then AvaB else AvaA
  }

  // ---------------------------------------------------------------------------
  // The selection as values
  // ---------------------------------------------------------------------------

  /** `s.has(i) ? s.delete(i) : s.add(i)` on the contents of a set. */
  function Toggle(s: set<nat>, i: nat): (t: set<nat>)
    ensures i in t <==> i !in s
    ensures forall j :: j != i ==> (j in t <==> j in s)
  {
    if i in s then s - {i} else s + {i}
  }

  /** Toggling the same index twice restores the set. */
  lemma ToggleTwice(s: set<nat>, i: nat)
    ensures Toggle(Toggle(s, i), i) == s
  {
  }

  /**
   * What a click on bit i of canvas canvasId does to the selection: toggle i in
   * that canvas's set (a missing set counts as empty), and on an avalanche
   * canvas give the partner the same contents.
   */
  function ClickEffect(m: map<string, set<nat>>, canvasId: string, i: nat): (r: map<string, set<nat>>)
    ensures m.Keys <= r.Keys && canvasId in r
    ensures r[canvasId] == Toggle(SelectionOf(m, canvasId), i)
    ensures canvasId == AvaA || canvasId == AvaB ==> AvaA in r && AvaB in r && r[AvaA] == r[AvaB]
  {
    var t := Toggle(SelectionOf(m, canvasId), i);
    if canvasId == AvaA || canvasId == AvaB then m[canvasId := t][Partner(canvasId) := t]
    else m[canvasId := t]
  }

  /**
   * A click changes no other canvas: on an ordinary canvas only its own entry,
   * on an avalanche canvas only the two avalanche entries.
   */
  lemma ClickFrame(m: map<string, set<nat>>, canvasId: string, i: nat, k: string)
    requires k != canvasId
    requires canvasId == AvaA || canvasId == AvaB ==> k != AvaA && k != AvaB
    ensures var r := ClickEffect(m, canvasId, i);
      (k in r <==> k in m) && (k in m ==> r[k] == m[k])
  {
  }

  /** Clicking the same bit twice gives back the selection the canvas had (an empty set if it had none). */
  lemma ClickTwice(m: map<string, set<nat>>, canvasId: string, i: nat)
    ensures var r := ClickEffect(ClickEffect(m, canvasId, i), canvasId, i);
      SelectionOf(r, canvasId) == SelectionOf(m, canvasId) &&
      (canvasId in m && canvasId != AvaA && canvasId != AvaB ==> r == m)
  {
    var t := Toggle(SelectionOf(m, canvasId), i);
    assert SelectionOf(ClickEffect(m, canvasId, i), canvasId) == t;
    ToggleTwice(SelectionOf(m, canvasId), i);
  }

  /**
   * The selection after handleCanvasClick when getBitIndexFromClick returned
   * bitIndex: nothing changes without recorded non-empty bits or when the click
   * hit no bit (bitIndex < 0).
   */
  function AfterClick(m: map<string, set<nat>>, data: map<string, seq<bit>>,
                      canvasId: string, bitIndex: int): (r: map<string, set<nat>>)
    ensures m.Keys <= r.Keys
    ensures forall k :: k in m && k != canvasId && k != AvaA && k != AvaB ==> r[k] == m[k]
    ensures r != m ==> canvasId in data && 0 <= bitIndex && canvasId in r && r[canvasId] == Toggle(SelectionOf(m, canvasId), bitIndex)
  {
    if canvasId !in data || |data[canvasId]| == 0 || bitIndex < 0 then m
    else ClickEffect(m, canvasId, bitIndex)
  }

  /**
   * A click at canvas coordinates inside the square of bit i makes
   * getBitIndexFromClick return i, so the click toggles exactly i.
   */
  lemma ClickOnBit(m: map<string, set<nat>>, data: map<string, seq<bit>>, canvasId: string,
                   width: nat, height: nat, i: nat, px: nat, py: nat)
    requires canvasId in data && i < |data[canvasId]|
    requires var L := Canvas2D.GridLayout(|data[canvasId]|, width, height); px < L.cell && py < L.cell
    ensures var L := Canvas2D.GridLayout(|data[canvasId]|, width, height);
      var bitIndex := Canvas2D.BitIndexFromClick(|data[canvasId]|, width, height,
        L.offX + (i % L.cols) * L.cell + px, L.offY + (i / L.cols) * L.cell + py);
      AfterClick(m, data, canvasId, bitIndex) == ClickEffect(m, canvasId, i)
  {
    Canvas2D.ClickInverse(|data[canvasId]|, width, height, i, px, py);
  }

  // ---------------------------------------------------------------------------
  // The mutable state
  // ---------------------------------------------------------------------------

  /** A JavaScript Set of bit indices. */
  class BitSet {
    var elems: set<nat>

    /** new Set() */
    constructor()
      ensures elems == {}
    {
      elems := {};
    }

    /** new Set(src): a fresh Set with the same members. */
    constructor Copy(src: BitSet)
      ensures elems == src.elems
    {
      elems := src.elems;
    }

    predicate Has(i: nat)
      reads this
    {
      i in elems
    }

    method Add(i: nat)
      modifies this
      ensures elems == old(elems) + {i}
    {
      elems := elems + {i};
    }

    method Delete(i: nat)
      modifies this
      ensures elems == old(elems) - {i}
    {
      elems := elems - {i};
    }

    /** `s.has(i) ? s.delete(i) : s.add(i)` */
    method ToggleBit(i: nat)
      modifies this
      ensures elems == Toggle(old(elems), i)
    {
      if Has(i) {
        Delete(i);
      } else {
        Add(i);
      }
    }
  }

  class ViewState {
    /** selectedBits: canvas id to its Set of selected bit indices. */
    var selectedBits: map<string, BitSet>
    /** canvasBitData: canvas id to the bits last drawn on it. */
    var canvasBitData: map<string, seq<bit>>

    /** No two canvases share a Set object, so mutating one changes no other canvas. */
    ghost predicate Valid()
      reads this
    {
      forall a, b :: a in selectedBits && b in selectedBits && a != b ==> selectedBits[a] != selectedBits[b]
    }

    /** The contents of every canvas's Set. */
    function Selections(): map<string, set<nat>>
      reads this, selectedBits.Values
    {
      map k | k in selectedBits :: selectedBits[k].elems
    }

    /** The initial state of js/utils.js: an empty Set for each of the five canvases, no bits recorded. */
    constructor()
      ensures Valid()
      ensures Selections() == map[AvaA := {}, AvaB := {}, Viz := {}, ColA := {}, ColB := {}]
      ensures canvasBitData == map[]
    {
      selectedBits := map[];
      canvasBitData := map[];
      new;
      ClearSelection(AvaA);
      ClearSelection(AvaB);
      ClearSelection(Viz);
      ClearSelection(ColA);
      ClearSelection(ColB);
    }

    /**
     * drawGridWithTracking: record the bits under the canvas id, replacing any
     * earlier entry, then draw them.
     */
    method DrawGridWithTracking(canvasId: string, bits: seq<bit>, width: nat, height: nat)
      returns (cells: seq<Canvas2D.Cell>)
      modifies this
      ensures canvasBitData == old(canvasBitData)[canvasId := bits]
      ensures selectedBits == old(selectedBits)
      ensures Valid() == old(Valid()) && Selections() == old(Selections())
      ensures bits == [] ==> cells == []
      ensures bits != [] ==>
        var L := Canvas2D.GridLayout(|bits|, width, height);
        |cells| == L.rows * L.cols &&
        forall idx :: 0 <= idx < |cells| ==> cells[idx] == Canvas2D.GridCell(L, bits, idx)
    {
      canvasBitData := canvasBitData[canvasId := bits];
      cells := Canvas2D.DrawGrid(bits, width, height);
    }

    /** `selectedBits[canvasId] = new Set()`, done for a tab's canvases before each run. */
    method ClearSelection(canvasId: string)
      requires Valid()
      modifies this
      ensures Valid()
      ensures canvasId in selectedBits && fresh(selectedBits[canvasId])
      ensures Selections() == old(Selections())[canvasId := {}]
      ensures canvasBitData == old(canvasBitData)
      ensures forall k :: k in old(selectedBits) && k != canvasId ==> k in selectedBits && selectedBits[k] == old(selectedBits[k])
    {
      var empty := new BitSet();
      selectedBits := selectedBits[canvasId := empty];
      assert Selections() == old(Selections())[canvasId := {}] by {
        forall k | k in selectedBits && k != canvasId
          ensures selectedBits[k].elems == old(selectedBits[k].elems)
        {
        }
      }
    }

    /**
     * handleCanvasClick, given the index getBitIndexFromClick computed for the
     * click (see Canvas2D.BitIndexFromClick): toggle that bit in the canvas's Set (in
     * place, or in a new Set when the canvas had none) and, on an avalanche
     * canvas, give the partner a fresh copy.  Redraws are not modelled.
     */
    method HandleCanvasClick(canvasId: string, bitIndex: int)
      requires Valid()
      modifies this, if canvasId in selectedBits then {selectedBits[canvasId]} else {}
      ensures Valid()
      ensures canvasBitData == old(canvasBitData)
      ensures Selections() == AfterClick(old(Selections()), old(canvasBitData), canvasId, bitIndex)
      ensures forall k :: k in old(selectedBits) && k != canvasId && !(canvasId in {AvaA, AvaB} && k in {AvaA, AvaB}) ==>
        k in selectedBits && selectedBits[k] == old(selectedBits[k])
      ensures canvasId in old(selectedBits) && canvasId in selectedBits ==> selectedBits[canvasId] == old(selectedBits[canvasId])
      ensures (canvasId == AvaA || canvasId == AvaB) && canvasId in canvasBitData && |canvasBitData[canvasId]| > 0 && bitIndex >= 0 ==>
        Partner(canvasId) in selectedBits && fresh(selectedBits[Partner(canvasId)])
    {
      if canvasId !in canvasBitData {
        return;
      }
      var bits := canvasBitData[canvasId];
      if |bits| == 0 {
        return;
      }
      if bitIndex >= 0 {
        ToggleSelection(canvasId, bitIndex);
        if canvasId == AvaA || canvasId == AvaB {
          SyncPartner(canvasId);
        }
      }
    }

    /**
     * `selectedBits[canvasId] || new Set()`, toggled in place and stored back
     * under canvasId.
     */
    method ToggleSelection(canvasId: string, bitIndex: nat)
      requires Valid()
      modifies this, if canvasId in selectedBits then {selectedBits[canvasId]} else {}
      ensures Valid()
      ensures canvasBitData == old(canvasBitData)
      ensures Selections() == old(Selections())[canvasId := Toggle(SelectionOf(old(Selections()), canvasId), bitIndex)]
      ensures canvasId in selectedBits
      ensures canvasId in old(selectedBits) ==> selectedBits[canvasId] == old(selectedBits[canvasId])
      ensures canvasId !in old(selectedBits) ==> fresh(selectedBits[canvasId])
      ensures forall k :: k in old(selectedBits) && k != canvasId ==> k in selectedBits && selectedBits[k] == old(selectedBits[k])
    {
      if canvasId !in selectedBits {
        ClearSelection(canvasId);
      }
      ToggleInPlace(canvasId, bitIndex);
    }

    /** Toggle bitIndex in the Set already stored under canvasId; no other canvas sees the change. */
    method ToggleInPlace(canvasId: string, bitIndex: nat)
      requires Valid() && canvasId in selectedBits
      modifies selectedBits[canvasId]
      ensures Selections() == old(Selections())[canvasId := Toggle(old(Selections())[canvasId], bitIndex)]
    {
      var canvasSelectedBits := selectedBits[canvasId];
      canvasSelectedBits.ToggleBit(bitIndex);
      assert Selections() == old(Selections())[canvasId := Toggle(old(Selections())[canvasId], bitIndex)] by {
        forall k | k in selectedBits && k != canvasId
          ensures selectedBits[k].elems == old(Selections())[k]
        {
        }
      }
    }

    /** `selectedBits[pairCanvasId] = new Set(canvasSelectedBits)` for an avalanche canvas. */
    method SyncPartner(canvasId: string)
      requires Valid()
      requires (canvasId == AvaA || canvasId == AvaB) && canvasId in selectedBits
      modifies this
      ensures Valid()
      ensures canvasBitData == old(canvasBitData)
      ensures Selections() == old(Selections())[Partner(canvasId) := old(Selections())[canvasId]]
      ensures Partner(canvasId) in selectedBits && fresh(selectedBits[Partner(canvasId)])
      ensures forall k :: k in old(selectedBits) && k != Partner(canvasId) ==> k in selectedBits && selectedBits[k] == old(selectedBits[k])
    {
      var pairCanvasId := if canvasId == AvaA then AvaB else AvaA;
      var copy := new BitSet.Copy(selectedBits[canvasId]);
      selectedBits := selectedBits[pairCanvasId := copy];
      assert Selections() == old(Selections())[pairCanvasId := old(Selections())[canvasId]] by {
        forall k | k in selectedBits && k != pairCanvasId
          ensures selectedBits[k].elems == old(Selections())[k]
        {
        }
      }
    }
  }
}
