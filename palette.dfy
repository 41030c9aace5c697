/**
 * The RNA accessors of a palette: adding, removing and clearing colours
 * behind the editability guards, and converting between the active colour
 * and its position in the colour list (-1 means unset).
 */
module RnaPalette {

  /** A palette colour; only its identity matters to the accessors. */
  class PaletteColor {
    constructor ()
    {
    }
  }

  /** The report `remove` files when the colour is not the palette's. */
  datatype Report = NoReport | NotInPalette(paletteName: string)

  /**
   * `BLI_findindex`: the position of the first element of the list that is
   * `c`, walking from the front, or -1 when there is none.
   */
  function FindIndex(s: seq<PaletteColor>, c: PaletteColor): (r: int)
    ensures -1 <= r < |s|
    ensures r == -1 <==> c !in s
    ensures r >= 0 ==> s[r] == c && c !in s[..r]
  {
    if s == [] then -1
    else if s[0] == c then 0
    else
      var r := FindIndex(s[1..], c);
      assert s[1..][..if r == -1 then 0 else r] == s[1..if r == -1 then 1 else r + 1];
      if r == -1 then -1 else r + 1
  }

  /** `BLI_findlink`: the element at position `n`, or null when there is none. */
  function ColorAt(s: seq<PaletteColor>, n: int): (r: PaletteColor?)
    ensures r != null <==> 0 <= n < |s|
    ensures r != null ==> r in s
  {
    if 0 <= n < |s| then s[n] else null
  }

  ghost predicate Distinct(s: seq<PaletteColor>) {
    forall i, j :: 0 <= i < j < |s| ==> s[i] != s[j]
  }

  /** Looking up the position of a listed colour and then the colour at that position gives it back. */
  lemma {:induction false} FindIndexThenColorAt(s: seq<PaletteColor>, c: PaletteColor)
    requires c in s
    ensures ColorAt(s, FindIndex(s, c)) == c
  {
  }

  /**
   * On a list without repetitions, the position of the colour at position
   * `n` is `n`; an unset position gives no colour.
   */
  lemma {:induction false} ColorAtThenFindIndex(s: seq<PaletteColor>, n: int)
    requires Distinct(s)
    ensures ColorAt(s, n) != null ==> FindIndex(s, ColorAt(s, n)) == n
    ensures ColorAt(s, -1) == null
  {
    if 0 <= n < |s| {
      var r := FindIndex(s, s[n]);
      assert s[r] == s[n];
    }
  }

  /** The colours of a list with one colour taken out at position `i`. */
  function RemoveAt(s: seq<PaletteColor>, i: nat): (r: seq<PaletteColor>)
    requires i < |s|
    ensures |r| == |s| - 1
    ensures forall j :: 0 <= j < i ==> r[j] == s[j]
    ensures forall j :: i <= j < |r| ==> r[j] == s[j + 1]
  {
    s[..i] + s[i + 1..]
  }

  /** Taking a colour out of a list without repetitions removes it and keeps every other colour. */
  lemma {:induction false} RemoveAtRemoves(s: seq<PaletteColor>, c: PaletteColor)
    requires Distinct(s) && c in s
    ensures c !in RemoveAt(s, FindIndex(s, c))
    ensures Distinct(RemoveAt(s, FindIndex(s, c)))
    ensures forall d :: d in s && d != c ==> d in RemoveAt(s, FindIndex(s, c))
  {
    var i := FindIndex(s, c);
    var r := RemoveAt(s, i);
    forall d | d in s && d != c
      ensures d in r
    {
      var k :| 0 <= k < |s| && s[k] == d;
      if k < i {
        assert r[k] == d;
      } else {
        assert r[k - 1] == d;
      }
    }
  }

  /** `Palette`: its colour list, the index of the active colour and the flags of its ID. */
  class Palette {
    /** The ID name: a two-letter ID code followed by the user-visible name. */
    const idName: string
    /** `ID_IS_EDITABLE`. */
    const editable: bool
    /** `ID_IS_OVERRIDE_LIBRARY`. */
    const overrideLibrary: bool

    var colors: seq<PaletteColor>
    /** Index of the active colour in `colors`; -1 when unset. */
    var activeColor: int

    /** The colour list is a linked list: no colour is in it twice. */
    ghost predicate Valid()
      reads this
    {
      |idName| >= 2 && Distinct(colors)
    }

    constructor (idName: string, editable: bool, overrideLibrary: bool)
      requires |idName| >= 2
      ensures Valid()
      ensures this.idName == idName && this.editable == editable && this.overrideLibrary == overrideLibrary
      ensures colors == [] && activeColor == -1
    {
      this.idName := idName;
      this.editable := editable;
      this.overrideLibrary := overrideLibrary;
      colors := [];
      activeColor := -1;
    }

    /** The guard of `new`, `remove` and `clear`: editable and not a library override. */
    predicate MayEdit()
    {
      editable && !overrideLibrary
    }

    /**
     * `rna_Palette_color_new`: null on a palette that may not be edited,
     * otherwise a new colour appended to the list.
     */
    method ColorNew() returns (color: PaletteColor?)
      requires Valid()
      modifies this`colors
      ensures Valid()
      ensures !MayEdit() ==> color == null && colors == old(colors)
      ensures MayEdit() ==> color != null && fresh(color) && colors == old(colors) + [color]
    {
      if !MayEdit() {
        return null;
      }
      color := new PaletteColor();
      colors := colors + [color];
    }

    /**
     * `rna_Palette_color_remove`: nothing happens on a palette that may not be
     * edited; a colour that is not in the list is reported and nothing
     * changes; otherwise the colour is unlinked.
     */
    method ColorRemove(color: PaletteColor) returns (report: Report)
      requires Valid()
      modifies this`colors
      ensures Valid()
      ensures !MayEdit() ==> report == NoReport && colors == old(colors)
      ensures MayEdit() && color !in old(colors) ==>
        report == NotInPalette(idName[2..]) && colors == old(colors)
      ensures MayEdit() && color in old(colors) ==>
        report == NoReport && colors == RemoveAt(old(colors), FindIndex(old(colors), color))
      ensures color !in colors || !MayEdit()
    {
      if !MayEdit() {
        return NoReport;
      }
      var index := FindIndex(colors, color);
      if index == -1 {
        return NotInPalette(idName[2..]);
      }
      RemoveAtRemoves(colors, color);
      colors := RemoveAt(colors, index);
      report := NoReport;
    }

    /** `rna_Palette_color_clear`: empties the list of a palette that may be edited. */
    method ColorClear()
      requires Valid()
      modifies this`colors
      ensures Valid()
      ensures colors == if MayEdit() then [] else old(colors)
    {
      if !MayEdit() {
        return;
      }
      colors := [];
    }

    /** `rna_Palette_active_color_get`: the colour at the active index, or null. */
    function ActiveColorGet(): (color: PaletteColor?)
      reads this
      ensures color != null <==> 0 <= activeColor < |colors|
      ensures color != null ==> color == colors[activeColor]
    {
      ColorAt(colors, activeColor)
    }

    /**
     * `rna_Palette_active_color_set`: null unsets the active colour (-1);
     * otherwise the active index becomes the colour's position, -1 when it
     * is not in the list.
     */
    method ActiveColorSet(color: PaletteColor?)
      modifies this`activeColor
      ensures color == null ==> activeColor == -1
      ensures color != null ==> activeColor == FindIndex(colors, color)
      ensures color != null && color in colors ==> ActiveColorGet() == color
      ensures color == null || color !in colors ==> ActiveColorGet() == null
    {
      if color == null {
        activeColor := -1;
      } else {
        activeColor := FindIndex(colors, color);
      }
    }
  }

  /** Getting the active colour and setting it again leaves the active index as it was, when set. */
  lemma {:induction false} GetThenSetKeepsIndex(p: Palette)
    requires p.Valid() && p.ActiveColorGet() != null
    ensures FindIndex(p.colors, p.ActiveColorGet()) == p.activeColor
  {
    ColorAtThenFindIndex(p.colors, p.activeColor);
  }
}
