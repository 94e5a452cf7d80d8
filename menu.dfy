/*
 * The dish catalog ("la carte") of js/menu.js: the full menu records and the
 * list of emoji strings extracted from them, whose positions 0, 1 and 2 the
 * combination rule uses as numbers.
 *
 * A dish is the emoji string of one Unicode code point. JavaScript stores it as
 * UTF-16 code units; here a string is a sequence of Unicode scalar values, so
 * each dish is a one-character string. Equality of two dishes is the same
 * either way.
 */
module Catalog {

  /** One record of the full menu: display name, emoji code point, emoji string. */
  datatype MenuItem = MenuItem(name: string, emojiHexCodePoint: int, emojiString: string)

  /** The code points String.fromCodePoint accepts and that a Dafny char can hold. */
  predicate IsScalar(cp: int) {
    0 <= cp < 0xD800 || 0xE000 <= cp < 0x11_0000
  }

  /** String.fromCodePoint: the one-character string of a code point. */
  function FromCodePoint(cp: int): (s: string)
    requires IsScalar(cp)
    ensures |s| == 1 && s[0] as int == cp
  {
    [cp as char]
  }

  /** The full menu, in the order the application lists it. */
  const FullMenu: seq<MenuItem> := [
    MenuItem("Sushi", 0x1F363, FromCodePoint(0x1F363)),
    MenuItem("Pizza", 0x1F355, FromCodePoint(0x1F355)),
    MenuItem("V\U{E9}g\U{E9}tarien", 0x1F966, FromCodePoint(0x1F966))
  ]

  /**
   * The projection the menu is built with: for a record of the full menu, the
   * one-character string of the record's code point.
   */
  function Extract(meal: MenuItem): (s: string)
    ensures meal in FullMenu ==> |s| == 1 && s[0] as int == meal.emojiHexCodePoint
  {
    meal.emojiString
  }

  /** Array.prototype.map: f applied to every element, in order. */
  function MapSeq<A, B>(f: A -> B, s: seq<A>): (r: seq<B>)
    ensures |r| == |s|
    ensures forall i :: 0 <= i < |s| ==> r[i] == f(s[i])
  {
    if s == [] then [] else [f(s[0])] + MapSeq(f, s[1..])
  }

  /** The menu: the emoji strings of FullMenu, in the same order. */
  const Menu: seq<string> := MapSeq(Extract, FullMenu)

  /** Array.prototype.indexOf: the first position of x in s, or -1 when x is absent. */
  function IndexOf<T(==)>(s: seq<T>, x: T): (r: int)
    ensures -1 <= r < |s|
    ensures r == -1 <==> x !in s
    ensures 0 <= r ==> s[r] == x && x !in s[..r]
  {
    if |s| == 0 then -1
    else if s[0] == x then 0
    else
      var j := IndexOf(s[1..], x);
      assert s[1..][..j + 1] == s[1..j + 2] by { if j >= 0 { assert s[1..][..j] == s[1..j + 1]; } }
      if j == -1 then -1 else j + 1
  }

  /** The menu has as many entries as the full menu, three, each the emoji of its record. */
  lemma MenuIsExtracted()
    ensures |Menu| == |FullMenu| == 3
    ensures forall i :: 0 <= i < |Menu| ==> Menu[i] == FullMenu[i].emojiString
    ensures forall i :: 0 <= i < |FullMenu| ==>
      FullMenu[i].emojiString == FromCodePoint(FullMenu[i].emojiHexCodePoint)
  {
  }

  /** The three dishes are pairwise distinct (code points 0x1F363, 0x1F355, 0x1F966). */
  lemma MenuDistinct()
    ensures forall i, j :: 0 <= i < j < |Menu| ==> Menu[i] != Menu[j]
  {
    assert Menu[0][0] as int == 0x1F363;
    assert Menu[1][0] as int == 0x1F355;
    assert Menu[2][0] as int == 0x1F966;
  }

  /** A dish of the menu is one of its three entries. */
  lemma OnMenu(d: string)
    requires d in Menu
    ensures d == Menu[0] || d == Menu[1] || d == Menu[2]
  {
  }

  /** Since the entries are distinct, indexOf gives back each entry's own position. */
  lemma IndexOfMenu(i: int)
    requires 0 <= i < |Menu|
    ensures IndexOf(Menu, Menu[i]) == i
  {
    MenuDistinct();
  }

  /**
   * A dish identified by its position in the menu, the number the combination
   * rule computes with: Sushi is 0, Pizza 1, Vegetarian 2.
   */
  datatype Dish = Sushi | Pizza | Vegetarian

  /** The position of a dish in the menu. */
  function Position(d: Dish): (i: nat)
    ensures i < |Menu|
  {
    match d
    case Sushi => 0
    case Pizza => 1
    case Vegetarian => 2
  }

  /** The dish at a position of the menu. */
  function DishAt(i: int): (d: Dish)
    requires 0 <= i < 3
    ensures Position(d) == i
  {
    if i == 0 then Sushi else if i == 1 then Pizza else Vegetarian
  }

  /** The emoji string of a dish: its entry of the menu. */
  function Emoji(d: Dish): (s: string)
    ensures s in Menu
  {
    Menu[Position(d)]
  }

  /** The dish whose emoji is s, found with indexOf as the source finds positions. */
  function DishOf(s: string): (d: Dish)
    requires s in Menu
    ensures Emoji(d) == s
  {
    DishAt(IndexOf(Menu, s))
  }

  /** Different dishes have different emoji, and indexOf finds each dish at its position. */
  lemma EmojiInjective(a: Dish, b: Dish)
    ensures Emoji(a) == Emoji(b) <==> a == b
    ensures IndexOf(Menu, Emoji(a)) == Position(a)
  {
    MenuDistinct();
    IndexOfMenu(Position(a));
  }
}
