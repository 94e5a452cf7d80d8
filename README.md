# Triangle du miam — the meal-prediction engine, in Dafny

Triangle du miam predicts a restaurant customer's meals. The customer orders
14 dishes from a menu of three (sushi, pizza, vegetarian). The order is the
top row of a triangle. Each row below it is one cell shorter, and each of its
cells combines the two cells above it:

- a dish combined with itself stays the same;
- two different dishes give the third one.

Read row by row, the triangle has 105 cells: lunch and dinner of days 1 to 52,
and the lunch of day 53. Day 53's dinner is an "unknown" sentinel (U+2753).

Two modules:

- `Catalog` (`menu.dfy`) models `js/menu.js`: the full menu records, and the
  menu of emoji strings extracted from them with `map`. It also models the two
  JavaScript built-ins the engine relies on, `String.fromCodePoint` and
  `Array.prototype.indexOf`.
- `Miam` (`miam.dfy`) models the `model` object of `js/miam.js`: the class
  `Model` holds the stored triangle `mealTriangle`. Its methods are:
  - `Init`;
  - `RegisterOrderAndPredict`, an imperative `while`/`for` loop that appends
    cells to the stored triangle;
  - `GetOnePrediction`.

  The combination rule `CombineTwoDishes` is a pure function on emoji strings.

`RegisterOrderAndPredict` is proved against a specification. That
specification is the triangle of the order, built row by row on `Dish` values
(menu positions 0, 1, 2) and mapped back to emoji strings.
`CombineAgrees` shows that the string rule of the source and the rule on
positions give the same dish. The lemmas about the triangle then carry over to
the stored strings.

## Model

| member | source | states |
|---|---|---|
| `Catalog.FromCodePoint` | js/menu.js:23 | `String.fromCodePoint` of a scalar value is the one-character string holding exactly that code point |
| `Catalog.MapSeq` | js/menu.js:38 | `map` keeps the length and applies the projection to every element, in order |
| `Catalog.Extract` | js/menu.js:40-42 | `extract` of a record of the full menu is the one-character string of that record's own code point |
| `Catalog.MenuIsExtracted` | js/menu.js:19-42 | the menu has the 3 entries of the full menu, in its order; entry i is the `emojiString` of record i, which is `fromCodePoint` of that record's code point |
| `Catalog.MenuDistinct` | js/menu.js:19-35 | the three dishes of the menu are pairwise different (code points 0x1F363, 0x1F355, 0x1F966) |
| `Catalog.OnMenu` | js/menu.js:38 | a dish of the menu is one of its three entries |
| `Catalog.IndexOf` | js/miam.js:89 | `indexOf` is -1 exactly when the value is absent; otherwise it is the first position holding the value |
| `Catalog.IndexOfMenu` | js/miam.js:89 | since the entries are distinct, `menu.indexOf(menu[i]) == i` for each of the three positions |
| `Catalog.EmojiInjective` | js/miam.js:69-72 | different menu positions hold different emoji, and `indexOf` finds each dish at its own position |
| `Miam.CombineTwoDishes` | js/miam.js:85-90 | the result is a dish of the menu; equal dishes give that dish; two different dishes give neither of them |
| `Miam.CombineCommutative` | js/miam.js:85-90 | combining d1 with d2 gives the same dish as combining d2 with d1 |
| `Miam.CombineOddOneOut` | js/miam.js:69-78 | two different dishes combine to exactly the third dish of the menu |
| `Miam.CombineTable` | js/miam.js:74-78 | the table of the comment: positions 0 and 1 give 2, 0 and 2 give 1, 1 and 2 give 0 |
| `Miam.CombineNotAssociative` | js/miam.js:85-90 | the rule is not associative: for any two different dishes a and b, (a.a).b differs from a.(a.b) |
| `Miam.Combine` | js/miam.js:69-72 | the rule on menu positions: equal positions stay the same; different ones give a position equal to neither |
| `Miam.CombineAgrees` | js/miam.js:85-90 | `combineTwoDishes` on the emoji of two positions is the emoji of their combination on positions |
| `Miam.NextRowCell` | js/miam.js:43-48 | cell i of the next row combines cells i and i + 1 of the row above |
| `Miam.RowAdjacent` | js/miam.js:43-48 | cell i of row r combines cells i and i + 1 of row r - 1 |
| `Miam.RowStart` | js/miam.js:39-49 | the index `lineStart` reached after r rows, by adding each row's length in turn, is never negative while r is at most n + 1 (closed form in `RowStartClosedForm`) |
| `Miam.RowStartClosedForm` | js/miam.js:39-50 | the start index that `lineStart += lineLength` reaches after r rows of an n-cell top row is r(2n - r + 1)/2 |
| `Miam.RowsCell` | js/miam.js:42-51 | in the cells appended row by row, the cell at the start of row r plus i is cell i of row r |
| `Miam.TriangleCell` | js/miam.js:39-51 | cell RowStart(n, r) + i of the flattened triangle exists and is cell i of row r |
| `Miam.TriangleTop` | js/miam.js:36 | the first row of the triangle is the top row itself |
| `Miam.TriangleAdjacent` | js/miam.js:43-48 | the cell at lineStart + i combines the cells at lineStart - lineLength - 1 + i and lineStart - lineLength + i |
| `Miam.ExampleSecondRow` | js/miam.js:43-48 | when the top row cycles through the menu (A, B, C, A, ...), the row below cycles as C, A, B, C, ... |
| `Miam.MealTriangle` | js/miam.js:34-52 | the reference triangle of an order, which `RegisterOrderAndPredict` is proved to store: the triangle of its dishes row by row, as emoji, with RowStart(n, n) cells |
| `Miam.MealTriangleSize` | js/miam.js:39-51 | a 14-dish order gives 105 = 2 * 53 - 1 cells, all on the menu |
| `Miam.MealTriangleTop` | js/miam.js:35-36 | the first 14 cells of the stored triangle are the order, entry by entry |
| `Miam.MealTriangleAdjacent` | js/miam.js:43-48 | in the stored triangle, the cell at lineStart + i is `combineTwoDishes` of the cells at lineStart - lineLength - 1 + i and lineStart - lineLength + i, the exact cells the loop reads |
| `Miam.Cell` | js/miam.js:61-62 | reading cell k gives the cell exactly when k is an index of the array, and `undefined` otherwise |
| `Miam.Model.Init` | js/miam.js:24-26 | the triangle is empty after initialisation |
| `Miam.Model.RegisterOrderAndPredict` | js/miam.js:34-52 | the stored triangle becomes exactly the triangle of the order. The previous contents play no part: registration replaces them. Proved with loop invariants: after each step, the stored cells are a prefix of that triangle |
| `Miam.Model.GetOnePrediction` | js/miam.js:60-64 | the returned record carries the day it was asked for |
| `Miam.SentinelNotOnMenu` | js/miam.js:62 | the sentinel U+2753 is none of the three dishes of the menu |
| `Miam.PredictionFirstDay` | js/miam.js:60-64 | after registering an order, day 1 is lunch = order[0] and dinner = order[1] |
| `Miam.PredictionsCoverTriangle` | js/miam.js:60-64 | every cell k of a full triangle is read by the prediction of day k/2 + 1: as its lunch when k is even, as its dinner when k is odd |
| `Miam.PredictionDays` | js/miam.js:60-64 | with a full triangle, days 1 to 52 read their lunch from cell 2(day - 1) and their dinner from cell 2day - 1 |
| `Miam.PredictionsOnMenu` | js/miam.js:60-64 | after registration, every day from 1 to 53 has a lunch on the menu and a dinner, and the dinner is on the menu exactly when the day is not 53; day 53's dinner is the sentinel |
| `Miam.PredictionOutOfRange` | js/miam.js:60-64 | with a full triangle, a day outside 1..53 reads both meals as `undefined` |
| `Miam.PredictionBeforeRegistration` | js/miam.js:24-26 | before any order is registered, every meal reads as `undefined`, except day 53's dinner, which is the sentinel |

## Left out

- `dump`, `resultBox` and `app` in js/miam.js are console output and HTML
  view code, not part of the engine. js/emoji-picker.js is an HTML input
  widget. None is modelled.
- Miam.Model.RegisterOrderAndPredict: requires an order of exactly 14 dishes,
  all on the menu. The source checks neither, and the model does not say what
  it computes for other input:
  - The loop always starts at index 14 with a row of 13 cells
    (js/miam.js:39-40). It appends 91 cells whatever the order's length n.
    The array then has n + 91 cells and the triangle n(n + 1)/2, which agree
    only for n = 14: for any other length the stored array is not the
    triangle of the order.
  - A shorter order reads past the end of the array only in its last rows:
    for 13 dishes, only in the last row. Even that read gives a dish, not
    `undefined`, when the cell beside it is the vegetarian dish (see the next
    line). A longer order never reads past the end.
  - The application sets the order field's pattern to `[...]{14}` over the
    three menu emoji (js/miam.js:189-193). HTML does not check a pattern
    against an empty value, so an empty order is kept out only if the field
    is also `required`. The page's markup is not part of this model.
- Miam.CombineTwoDishes: requires both dishes to be on the menu. The source
  accepts any strings, and the model does not cover what it returns then:
  - Two equal symbols are returned unchanged without any lookup
    (js/miam.js:86-87). So two equal unknown symbols, for example in the
    order, carry down into the rows below.
  - Otherwise an unknown symbol has `indexOf` -1. The index `3 - (p + -1)`
    is then a menu index only when the other dish is the vegetarian one
    (p = 2), and the result is that dish.
  - In every other case (p = 0 or 1, or two different unknown symbols) the
    result is `undefined` (js/miam.js:89).
- Miam.Model.GetOnePrediction: takes the day as an integer. The application
  passes the text of an input field, and JavaScript coerces it (`day == 53`,
  `2 * (day - 1)`). The record then keeps the text as its `day`. That
  coercion is not modelled.
- Strings are sequences of Unicode scalar values, not UTF-16 code units. Each
  dish is one code point, and `Array.from` splits the order text by code
  point, so equality and `indexOf` behave the same.
- The source appends to its array in place with `push`. The model reassigns
  the `seq` field. Nothing else refers to the array, so no aliasing is lost.
- The source's inner loop counter `i` is an undeclared, hence global, variable
  in non-strict JavaScript. The model uses a local counter.
- Miam.Model.Init: the model starts from `init`, as the `model` object's
  own API intends. The application's `app.init` never calls `model.init`
  (js/miam.js:176-209), so in the application `mealTriangle` is undefined until
  the first registration. A query before it would throw a TypeError at
  js/miam.js:61. The application always registers before it queries
  (js/miam.js:215-220). `PredictionBeforeRegistration` describes the state
  after `init`.
- The code raises no errors. It checks neither the order's length and
  symbols, nor whether an order was registered, nor the day. The model
  handles these cases as follows:
  - the order's length and symbols are preconditions (above);
  - a day outside 1..53 reads cells outside the triangle, which give
    `undefined` (`None`), as JavaScript array reads do.
