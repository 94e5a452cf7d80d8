/*
 * The meal-prediction engine of js/miam.js (the `model` object).
 *
 * An order of 14 dishes is the top row of the meal triangle; each row below it
 * is one cell shorter, and each of its cells combines the two cells directly
 * above it. The 105 cells, read row by row, are the meals of the following
 * days: lunch, then dinner, two cells per day.
 *
 * The engine stores emoji strings, as the source does. The triangle is
 * specified on Dish values (menu positions) and mapped to strings with Emoji;
 * CombineAgrees shows that the string rule of the source and the Dish rule
 * coincide.
 */
module Miam {
  import opened Catalog

  /** Number of dishes in an order: the top row of the triangle. */
  const OrderLength := 14
  /** Number of cells in the triangle built from an order: 14 + 13 + ... + 1. */
  const TriangleSize := 105
  /** The last day that can be predicted. */
  const LastDay := 53
  /** The placeholder for the dinner of the last day, which the triangle lacks (U+2753). */
  const UnknownDish: string := FromCodePoint(0x2753)

  /** Every dish of s is a dish of the menu. */
  predicate AllOnMenu(s: seq<string>) {
    forall k :: 0 <= k < |s| ==> s[k] in Menu
  }

  // ---------------------------------------------------------------------------
  // The combination rule

  /**
   * combineTwoDishes, on emoji strings: a dish combined with itself is itself;
   * two different dishes give the dish at menu position 3 minus the sum of their
   * positions, which is the third one.
   */
  function CombineTwoDishes(d1: string, d2: string): (d: string)
    requires d1 in Menu && d2 in Menu
    ensures d in Menu
    ensures d1 == d2 ==> d == d1
    ensures d1 != d2 ==> d != d1 && d != d2
  {
    if d1 == d2 then d1
    else
      MenuDistinct();
      Menu[3 - (IndexOf(Menu, d1) + IndexOf(Menu, d2))]
  }

  /** The result does not depend on the order of the two dishes. */
  lemma CombineCommutative(d1: string, d2: string)
    requires d1 in Menu && d2 in Menu
    ensures CombineTwoDishes(d1, d2) == CombineTwoDishes(d2, d1)
  {
  }

  /** Two different dishes give exactly the third dish of the menu: the odd one out. */
  lemma CombineOddOneOut(d1: string, d2: string, d3: string)
    requires d1 in Menu && d2 in Menu && d3 in Menu
    requires d1 != d2 && d2 != d3 && d1 != d3
    ensures CombineTwoDishes(d1, d2) == d3
  {
    var d := CombineTwoDishes(d1, d2);
    OnMenu(d1);
    OnMenu(d2);
    OnMenu(d3);
    OnMenu(d);
  }

  /** The table of combinations of two different dishes, by menu position. */
  lemma CombineTable()
    ensures |Menu| == 3
    ensures CombineTwoDishes(Menu[0], Menu[1]) == Menu[2]
    ensures CombineTwoDishes(Menu[0], Menu[2]) == Menu[1]
    ensures CombineTwoDishes(Menu[1], Menu[2]) == Menu[0]
  {
    MenuIsExtracted();
    MenuDistinct();
    CombineOddOneOut(Menu[0], Menu[1], Menu[2]);
    CombineOddOneOut(Menu[0], Menu[2], Menu[1]);
    CombineOddOneOut(Menu[1], Menu[2], Menu[0]);
  }

  /** The rule is not associative: (a.a).b differs from a.(a.b) for every two different dishes. */
  lemma CombineNotAssociative(a: string, b: string)
    requires a in Menu && b in Menu && a != b
    ensures CombineTwoDishes(CombineTwoDishes(a, a), b) != CombineTwoDishes(a, CombineTwoDishes(a, b))
  {
    var c := CombineTwoDishes(a, b);
    CombineOddOneOut(a, c, b);
  }

  /** The same rule on menu positions: equal dishes stay, different ones give the third. */
  function Combine(a: Dish, b: Dish): (c: Dish)
    ensures a == b ==> c == a
    ensures a != b ==> c != a && c != b
  {
    if a == b then a else DishAt(3 - (Position(a) + Position(b)))
  }

  /** The string rule of the source and the rule on positions give the same dish. */
  lemma CombineAgrees(a: Dish, b: Dish)
    ensures CombineTwoDishes(Emoji(a), Emoji(b)) == Emoji(Combine(a, b))
  {
    EmojiInjective(a, b);
    EmojiInjective(b, a);
  }

  // ---------------------------------------------------------------------------
  // The meal triangle, on dishes

  /** The row below `row`: each cell combines two adjacent cells of `row`. */
  function NextRow(row: seq<Dish>): (next: seq<Dish>)
    requires |row| > 0
    ensures |next| == |row| - 1
  {
    if |row| == 1 then [] else [Combine(row[0], row[1])] + NextRow(row[1..])
  }

  /** Cell i of the next row combines cells i and i + 1 of the row. */
  lemma {:induction false} NextRowCell(row: seq<Dish>, i: nat)
    requires i < |row| - 1
    ensures NextRow(row)[i] == Combine(row[i], row[i + 1])
  {
    if i > 0 {
      NextRowCell(row[1..], i - 1);
    }
  }

  /** Row r of the triangle whose top row is `top`: r steps of NextRow. */
  function Row(top: seq<Dish>, r: nat): (line: seq<Dish>)
    requires r <= |top|
    ensures |line| == |top| - r
  {
    if r == 0 then top else NextRow(Row(top, r - 1))
  }

  /** Flat index at which row r starts when the top row has n cells: n + (n-1) + ... + (n-r+1). */
  function RowStart(n: int, r: nat): (start: int)
    ensures r <= n + 1 ==> 0 <= start
  {
    if r == 0 then 0 else RowStart(n, r - 1) + (n - (r - 1))
  }

  /** Closed form: twice the start of row r is r * (2n - r + 1). */
  lemma {:induction false} RowStartClosedForm(n: int, r: nat)
    ensures 2 * RowStart(n, r) == r * (2 * n - r + 1)
  {
    if r > 0 {
      RowStartClosedForm(n, r - 1);
      assert r * (2 * n - r + 1) == (r - 1) * (2 * n - (r - 1) + 1) + 2 * (n - (r - 1));
    }
  }

  /** Rows 0 to r - 1 of the triangle, one after the other: what the loop has built after r rows. */
  function Rows(top: seq<Dish>, r: nat): (cells: seq<Dish>)
    requires r <= |top|
    ensures |cells| == RowStart(|top|, r)
  {
    if r == 0 then [] else Rows(top, r - 1) + Row(top, r - 1)
  }

  /** The whole meal triangle whose top row is `top`, flattened row by row. */
  function Triangle(top: seq<Dish>): (t: seq<Dish>)
    ensures |t| == RowStart(|top|, |top|)
  {
    Rows(top, |top|)
  }

  /** Flat cell RowStart(n, r) + i, in any prefix of rows that includes row r, is cell i of row r. */
  lemma {:induction false} RowsCell(top: seq<Dish>, m: nat, r: nat, i: nat)
    requires r < m <= |top| && i < |top| - r
    ensures 0 <= RowStart(|top|, r) + i < |Rows(top, m)|
    ensures Rows(top, m)[RowStart(|top|, r) + i] == Row(top, r)[i]
  {
    if r < m - 1 {
      RowsCell(top, m - 1, r, i);
    }
    assert Rows(top, m) == Rows(top, m - 1) + Row(top, m - 1);
  }

  /** Row 0 of the triangle is the top row itself. */
  lemma {:induction false} TriangleTop(top: seq<Dish>)
    ensures |top| <= |Triangle(top)| && Triangle(top)[..|top|] == top
  {
    var n := |top|;
    if n > 0 {
      RowsCell(top, n, 0, n - 1);
      forall i | 0 <= i < n
        ensures Triangle(top)[i] == top[i]
      {
        RowsCell(top, n, 0, i);
      }
    }
  }

  /**
   * Adjacency: with lineStart the start of the row of length lineLength, cell
   * lineStart + i combines cells lineStart - lineLength - 1 + i and
   * lineStart - lineLength + i, the two cells above it in the previous row.
   */
  lemma TriangleAdjacent(top: seq<Dish>, lineLength: nat, i: nat)
    requires 1 <= lineLength < |top| && i < lineLength
    ensures var t, lineStart := Triangle(top), RowStart(|top|, |top| - lineLength);
      0 <= lineStart - lineLength - 1 && lineStart + i < |t| &&
      t[lineStart + i] == Combine(t[lineStart - lineLength - 1 + i], t[lineStart - lineLength + i])
  {
    var r := |top| - lineLength;
    assert RowStart(|top|, r - 1) == RowStart(|top|, r) - lineLength - 1;
    TriangleCell(top, r, i);
    TriangleCell(top, r - 1, i);
    TriangleCell(top, r - 1, i + 1);
    RowAdjacent(top, r, i);
  }

  /** Flat cell RowStart(n, r) + i of the triangle is cell i of row r. */
  lemma TriangleCell(top: seq<Dish>, r: nat, i: nat)
    requires r < |top| && i < |top| - r
    ensures 0 <= RowStart(|top|, r) + i < |Triangle(top)|
    ensures Triangle(top)[RowStart(|top|, r) + i] == Row(top, r)[i]
  {
    RowsCell(top, |top|, r, i);
  }

  /** Cell i of row r (r >= 1) combines cells i and i + 1 of row r - 1. */
  lemma RowAdjacent(top: seq<Dish>, r: nat, i: nat)
    requires 1 <= r < |top| && i < |top| - r
    ensures Row(top, r)[i] == Combine(Row(top, r - 1)[i], Row(top, r - 1)[i + 1])
  {
    NextRowCell(Row(top, r - 1), i);
  }

  /**
   * A worked example: when the top row cycles through the menu
   * (A, B, C, A, B, C, ...), the row below cycles too, starting with C
   * (C, A, B, C, ...).
   */
  lemma ExampleSecondRow(top: seq<Dish>)
    requires |top| == OrderLength
    requires forall k :: 0 <= k < |top| ==> top[k] == DishAt(k % 3)
    ensures forall k :: 0 <= k < |top| - 1 ==> Row(top, 1)[k] == DishAt((k + 2) % 3)
  {
    forall k | 0 <= k < |top| - 1
      ensures Row(top, 1)[k] == DishAt((k + 2) % 3)
    {
      RowAdjacent(top, 1, k);
      assert top[k + 1] == DishAt((k + 1) % 3);
    }
  }

  // ---------------------------------------------------------------------------
  // The meal triangle, on emoji strings

  /** The dishes of an order of emoji strings. */
  function DishesOf(order: seq<string>): (dishes: seq<Dish>)
    requires AllOnMenu(order)
    ensures |dishes| == |order|
    ensures forall k :: 0 <= k < |order| ==> Emoji(dishes[k]) == order[k]
  {
    seq(|order|, k requires 0 <= k < |order| => DishOf(order[k]))
  }

  /** The triangle the engine stores for an order: the triangle of its dishes, as emoji strings. */
  function MealTriangle(order: seq<string>): (t: seq<string>)
    requires AllOnMenu(order)
    ensures |t| == RowStart(|order|, |order|)
  {
    MapSeq(Emoji, Triangle(DishesOf(order)))
  }

  /** A 14-dish order yields 105 cells, 2 per day for 52 days and a last lunch; all are on the menu. */
  lemma MealTriangleSize(order: seq<string>)
    requires |order| == OrderLength && AllOnMenu(order)
    ensures |MealTriangle(order)| == TriangleSize == 2 * LastDay - 1
    ensures AllOnMenu(MealTriangle(order))
  {
    RowStartClosedForm(OrderLength, OrderLength);
  }

  /** The first 14 cells of the stored triangle are the order, entry by entry. */
  lemma MealTriangleTop(order: seq<string>)
    requires AllOnMenu(order)
    ensures |order| <= |MealTriangle(order)| && MealTriangle(order)[..|order|] == order
  {
    var dishes := DishesOf(order);
    TriangleTop(dishes);
    forall k | 0 <= k < |order|
      ensures MealTriangle(order)[k] == order[k]
    {
      assert Triangle(dishes)[k] == dishes[k];
    }
  }

  /**
   * In the stored triangle, the cell at lineStart + i is combineTwoDishes of the
   * cells at lineStart - lineLength - 1 + i and lineStart - lineLength + i.
   */
  lemma MealTriangleAdjacent(order: seq<string>, lineLength: nat, i: nat)
    requires |order| == OrderLength && AllOnMenu(order)
    requires 1 <= lineLength < OrderLength && i < lineLength
    ensures var t, lineStart := MealTriangle(order), RowStart(OrderLength, OrderLength - lineLength);
      0 <= lineStart - lineLength - 1 && lineStart + i < |t| &&
      t[lineStart + i] == CombineTwoDishes(t[lineStart - lineLength - 1 + i], t[lineStart - lineLength + i])
  {
    var top := DishesOf(order);
    var lineStart := RowStart(|top|, |top| - lineLength);
    TriangleAdjacent(top, lineLength, i);
    EmojiAdjacent(Triangle(top), lineStart - lineLength - 1 + i, lineStart + i);
  }

  /** A cell combining two others still does, once every cell is mapped to its emoji. */
  lemma EmojiAdjacent(cells: seq<Dish>, above: nat, cell: nat)
    requires above + 1 < |cells| && cell < |cells|
    requires cells[cell] == Combine(cells[above], cells[above + 1])
    ensures var t := MapSeq(Emoji, cells);
      |t| == |cells| && t[cell] == CombineTwoDishes(t[above], t[above + 1])
  {
    CombineAgrees(cells[above], cells[above + 1]);
  }

  /** Extending a prefix of `full` by the next cell of `full` gives a longer prefix. */
  lemma PrefixExtend<T>(t: seq<T>, full: seq<T>, x: T)
    requires |t| < |full| && x == full[|t|]
    requires forall k :: 0 <= k < |t| ==> t[k] == full[k]
    ensures forall k :: 0 <= k < |t| + 1 ==> (t + [x])[k] == full[k]
  {
  }

  /**
   * One step of the registration loop: when t holds the first cells of the
   * triangle up to cell lineStart + i, appending the combination of the two
   * cells above gives the next cell.
   */
  lemma RegisterStep(order: seq<string>, t: seq<string>, lineLength: nat, i: nat)
    requires |order| == OrderLength && AllOnMenu(order)
    requires 1 <= lineLength < OrderLength && i < lineLength
    requires |t| == RowStart(OrderLength, OrderLength - lineLength) + i
    requires forall k :: 0 <= k < |t| ==> k < |MealTriangle(order)| && t[k] == MealTriangle(order)[k]
    ensures var lineStart := |t| - i;
      0 <= lineStart - lineLength - 1 && lineStart - lineLength + i < |t| < |MealTriangle(order)| &&
      t[lineStart - lineLength - 1 + i] in Menu && t[lineStart - lineLength + i] in Menu &&
      var next := t + [CombineTwoDishes(t[lineStart - lineLength - 1 + i], t[lineStart - lineLength + i])];
      forall k :: 0 <= k < |next| ==> next[k] == MealTriangle(order)[k]
  {
    var full, lineStart := MealTriangle(order), |t| - i;
    MealTriangleAdjacent(order, lineLength, i);
    MealTriangleSize(order);
    PrefixExtend(t, full, CombineTwoDishes(t[lineStart - lineLength - 1 + i], t[lineStart - lineLength + i]));
  }

  // ---------------------------------------------------------------------------
  // The engine

  /** A value that may be absent: None stands for JavaScript's `undefined`. */
  datatype Option<T> = None | Some(value: T)

  /**
   * Reading cell k of an array: the cell when k is an index of t, and
   * `undefined` otherwise, as a JavaScript array read does.
   */
  function Cell(t: seq<string>, k: int): (v: Option<string>)
    ensures v.Some? <==> 0 <= k < |t|
    ensures v.Some? ==> v.value == t[k]
  {
    if 0 <= k < |t| then Some(t[k]) else None
  }

  /** One day's prediction: the day number and its lunch and dinner dishes. */
  datatype Prediction = Prediction(day: int, lunch: Option<string>, dinner: Option<string>)

  /** The `model` object: the meal triangle of the last registered order. */
  class Model {
    var mealTriangle: seq<string>

    /** init: no order registered yet, the triangle is empty. */
    constructor Init()
      ensures mealTriangle == []
    {
      mealTriangle := [];
    }

    /**
     * registerOrderAndPredict: copies the order as the top row, then appends the
     * 13 rows below it, lengths 13 down to 1. Whatever triangle was there before
     * is replaced by the whole triangle of this order.
     */
    method RegisterOrderAndPredict(order: seq<string>)
      requires |order| == OrderLength && AllOnMenu(order)
      modifies this
      ensures mealTriangle == MealTriangle(order)
    {
      ghost var full := MealTriangle(order);
      MealTriangleSize(order);
      MealTriangleTop(order);
      mealTriangle := order;
      var lineStart := 14;
      var lineLength := 13;
      while lineLength > 0
        invariant 0 <= lineLength <= 13
        invariant lineStart == RowStart(OrderLength, OrderLength - lineLength)
        invariant |mealTriangle| == lineStart <= |full|
        invariant forall k :: 0 <= k < |mealTriangle| ==> mealTriangle[k] == full[k]
      {
        for i := 0 to lineLength
          invariant |mealTriangle| == lineStart + i <= |full|
          invariant forall k :: 0 <= k < |mealTriangle| ==> mealTriangle[k] == full[k]
        {
          RegisterStep(order, mealTriangle, lineLength, i);
          mealTriangle := mealTriangle + [CombineTwoDishes(
            mealTriangle[lineStart - lineLength - 1 + i],
            mealTriangle[lineStart - lineLength + i])];
        }
        lineStart := lineStart + lineLength;
        lineLength := lineLength - 1;
      }
      RowStartClosedForm(OrderLength, OrderLength);
    }

    /**
     * getOnePrediction: day d's lunch is cell 2(d-1) and its dinner cell 2d-1;
     * day 53 has no dinner cell and gets UnknownDish instead. The day is not
     * checked: a cell outside the triangle reads as undefined.
     */
    function GetOnePrediction(day: int): (p: Prediction)
      reads this
      ensures p.day == day
    {
      var lunch := Cell(mealTriangle, 2 * (day - 1));
      var dinner := if day == LastDay then Some(UnknownDish) else Cell(mealTriangle, 2 * day - 1);
      Prediction(day, lunch, dinner)
    }
  }

  // ---------------------------------------------------------------------------
  // Predictions

  /** The sentinel is none of the dishes of the menu. */
  lemma SentinelNotOnMenu()
    ensures UnknownDish !in Menu
  {
    MenuIsExtracted();
    assert UnknownDish[0] as int == 0x2753;
    assert Menu[0][0] as int == 0x1F363;
    assert Menu[1][0] as int == 0x1F355;
    assert Menu[2][0] as int == 0x1F966;
  }

  /** After registering an order, day 1 is predicted as the first two dishes of the order. */
  lemma PredictionFirstDay(m: Model, order: seq<string>)
    requires |order| == OrderLength && AllOnMenu(order)
    requires m.mealTriangle == MealTriangle(order)
    ensures m.GetOnePrediction(1) == Prediction(1, Some(order[0]), Some(order[1]))
  {
    MealTriangleSize(order);
    MealTriangleTop(order);
    assert m.mealTriangle[..|order|][0] == order[0];
    assert m.mealTriangle[..|order|][1] == order[1];
  }

  /**
   * Every cell of a full triangle is predicted: cell k is the lunch of day
   * k / 2 + 1 when k is even and its dinner when k is odd.
   */
  lemma PredictionsCoverTriangle(m: Model, k: int)
    requires |m.mealTriangle| == TriangleSize && 0 <= k < TriangleSize
    ensures 1 <= k / 2 + 1 <= LastDay
    ensures k % 2 == 0 ==> m.GetOnePrediction(k / 2 + 1).lunch == Some(m.mealTriangle[k])
    ensures k % 2 == 1 ==> k / 2 + 1 < LastDay && m.GetOnePrediction(k / 2 + 1).dinner == Some(m.mealTriangle[k])
  {
  }

  /** Days 1 to 52 read their lunch from cell 2(day-1) and their dinner from cell 2day-1 of a full triangle. */
  lemma PredictionDays(m: Model, day: int)
    requires |m.mealTriangle| == TriangleSize && 1 <= day < LastDay
    ensures m.GetOnePrediction(day) ==
      Prediction(day, Some(m.mealTriangle[2 * (day - 1)]), Some(m.mealTriangle[2 * day - 1]))
  {
  }

  /**
   * Once an order is registered, every day from 1 to 53 has a lunch on the
   * menu, and a dinner on the menu except day 53, whose dinner is the sentinel.
   */
  lemma PredictionsOnMenu(m: Model, order: seq<string>, day: int)
    requires |order| == OrderLength && AllOnMenu(order)
    requires m.mealTriangle == MealTriangle(order) && 1 <= day <= LastDay
    ensures m.GetOnePrediction(day).lunch.Some? && m.GetOnePrediction(day).lunch.value in Menu
    ensures m.GetOnePrediction(day).dinner.Some?
    ensures m.GetOnePrediction(day).dinner.value in Menu <==> day != LastDay
    ensures day == LastDay ==> m.GetOnePrediction(day).dinner.value == UnknownDish
  {
    MealTriangleSize(order);
    SentinelNotOnMenu();
  }

  /**
   * Outside days 1 to 53 a full triangle has no cell for the day: both meals
   * read as undefined.
   */
  lemma PredictionOutOfRange(m: Model, day: int)
    requires |m.mealTriangle| == TriangleSize && (day < 1 || LastDay < day)
    ensures m.GetOnePrediction(day).lunch == None && m.GetOnePrediction(day).dinner == None
  {
  }

  /**
   * Before any order is registered the triangle is empty: every lunch and
   * dinner reads as undefined, except the sentinel dinner of day 53.
   */
  lemma PredictionBeforeRegistration(m: Model, day: int)
    requires m.mealTriangle == []
    ensures m.GetOnePrediction(day).lunch == None
    ensures m.GetOnePrediction(day).dinner == if day == LastDay then Some(UnknownDish) else None
  {
  }
}
