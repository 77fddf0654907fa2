/**
 The font registry: the static array of fonts, indexed by font id.

 Loading a font appends a slot whose id is its index; destroying a font
 releases its cache and marks its slot with id -1. Slots are never removed
 or reused, so ids are sequential and a destroyed id stays dead.
 */
module FontRegistry {
  import opened GlyphCache

  /** Every slot holds its own index as id, or -1 once destroyed. */
  predicate Valid(fonts: seq<Font>) {
    forall k :: 0 <= k < |fonts| ==> fonts[k].id == k || fonts[k].id == -1
  }

  /** A font that can be used: its slot exists and has not been destroyed. */
  predicate Live(fonts: seq<Font>, id: int) {
    0 <= id < |fonts| && fonts[id].id != -1
  }

  datatype Registered = Registered(fonts: seq<Font>, id: int)

  /**
   `cbLoadFont` without the file read: the new font's id is the number of
   slots before the push, and it starts with an empty cache.
   */
  function LoadFont(fonts: seq<Font>, size: int): (r: Registered)
    ensures r.id == |fonts|
    ensures |r.fonts| == |fonts| + 1 && r.fonts[..|fonts|] == fonts
    ensures r.fonts[r.id].size == size && r.fonts[r.id].glyphs == [] && r.fonts[r.id].pages == []
    ensures Live(r.fonts, r.id)
    ensures Valid(fonts) ==> Valid(r.fonts) && forall k :: 0 <= k < |fonts| ==> fonts[k].id != r.id
  {
    var id := |fonts|;
    Registered(fonts + [Font(id, size, [], [])], id)
  }

  /**
   `cbDestroyFont`: -1 and an already destroyed slot return at once; otherwise
   the font's cache is released and its slot marked -1. The registry keeps its
   length, and exactly that font stops being live.
   */
  function DestroyFont(fonts: seq<Font>, id: int): (r: seq<Font>)
    requires id == -1 || 0 <= id < |fonts|
    ensures |r| == |fonts|
    ensures forall k :: 0 <= k < |fonts| && k != id ==> r[k] == fonts[k]
    ensures forall k :: Live(r, k) <==> Live(fonts, k) && k != id
    ensures id == -1 || !Live(fonts, id) ==> r == fonts
    ensures Live(fonts, id) ==> r[id].glyphs == [] && r[id].pages == [] && r[id].size == fonts[id].size
    ensures Valid(fonts) ==> Valid(r)
  {
    if id == -1 then fonts
    else if fonts[id].id == -1 then fonts
    else fonts[id := fonts[id].(id := -1, glyphs := [], pages := [])]
  }

  /** Destroying twice is destroying once. */
  lemma DestroyIdempotent(fonts: seq<Font>, id: int)
    requires id == -1 || 0 <= id < |fonts|
    ensures DestroyFont(DestroyFont(fonts, id), id) == DestroyFont(fonts, id)
  {
  }

  /** In a valid registry a live font sits in the slot its id names. */
  lemma LiveSlotHoldsId(fonts: seq<Font>, id: int)
    requires Valid(fonts) && Live(fonts, id)
    ensures fonts[id].id == id
  {
  }

  /** A destroyed id never becomes live again, whatever is loaded later. */
  lemma {:induction false} DestroyedStaysDead(fonts: seq<Font>, id: int, sizes: seq<int>)
    requires 0 <= id < |fonts| && !Live(fonts, id)
    ensures !Live(LoadFonts(fonts, sizes), id)
    decreases |sizes|
  {
    if |sizes| > 0 {
      DestroyedStaysDead(fonts, id, sizes[..|sizes| - 1]);
    }
  }

  /** Loading fonts of the given sizes in turn. */
  function LoadFonts(fonts: seq<Font>, sizes: seq<int>): (r: seq<Font>)
    ensures |r| == |fonts| + |sizes| && r[..|fonts|] == fonts
    decreases |sizes|
  {
    if |sizes| == 0 then fonts
    else LoadFont(LoadFonts(fonts, sizes[..|sizes| - 1]), sizes[|sizes| - 1]).fonts
  }
}
