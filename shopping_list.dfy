/** The shopping list of `download_shopping_cart` (backend/api/views.py): the
    join rows of every recipe in the user's cart, grouped by the
    ingredient's (name, measurement unit) with their amounts summed, one
    text line per group. */
module ShoppingList {
  import opened Prelude
  import opened Text
  import opened Models

  /** A row of the query before grouping: the joined ingredient's name and
      unit, and the row's amount. */
  datatype Item = Item(name: string, unit: string, amount: int)

  /** A row of `.values(name, unit).annotate(amount_total=Sum('amount'))`. */
  datatype Group = Group(name: string, unit: string, total: int)

  /** The cart's join rows joined with their ingredients, in table order. */
  function ItemsOf(rows: seq<JoinRow>, ingredients: seq<Ingredient>, cart: seq<Pair>, user: Id): (r: seq<Item>)
    ensures |r| <= |rows|
    decreases |rows|
  {
    if rows == [] then []
    else
      var row := rows[0];
      var here :=
        if Pair(user, row.recipe) in cart then
          match FindIngredient(ingredients, row.ingredient)
          case Some(ing) => [Item(ing.name, ing.unit, row.amount)]
          case None => []
        else [];
      here + ItemsOf(rows[1..], ingredients, cart, user)
  }

  function CartItems(st: Store, user: Id): seq<Item> {
    ItemsOf(st.rows, st.ingredients, st.cart, user)
  }

  /** The grouping key of `.values('ingredient__name', 'ingredient__measurement_unit')`. */
  predicate SameKey(g: Group, name: string, unit: string) {
    g.name == name && g.unit == unit
  }

  /** Adds one item to the running groups: to the group with its key, or
      as a new last group. */
  function Bump(groups: seq<Group>, it: Item): seq<Group>
    decreases |groups|
  {
    if groups == [] then [Group(it.name, it.unit, it.amount)]
    else if SameKey(groups[0], it.name, it.unit) then
      [groups[0].(total := groups[0].total + it.amount)] + groups[1..]
    else [groups[0]] + Bump(groups[1..], it)
  }

  /** GROUP BY (name, unit) with SUM(amount), as a left fold over the rows;
      groups come in the order their key first appears. */
  function Aggregate(items: seq<Item>): seq<Group>
    decreases |items|
  {
    if items == [] then [] else Bump(Aggregate(items[..|items| - 1]), items[|items| - 1])
  }

  /** The reference sum: the amounts of all items with the given key. */
  function SumFor(items: seq<Item>, name: string, unit: string): int
    decreases |items|
  {
    if items == [] then 0
    else
      var last := items[|items| - 1];
      SumFor(items[..|items| - 1], name, unit) + (if last.name == name && last.unit == unit then last.amount else 0)
  }

  predicate HasKey(groups: seq<Group>, name: string, unit: string) {
    exists g :: g in groups && SameKey(g, name, unit)
  }

  ghost predicate ItemHasKey(items: seq<Item>, name: string, unit: string) {
    exists it :: it in items && it.name == name && it.unit == unit
  }

  /** The total of the first group with the given key, 0 without one. */
  function TotalIn(groups: seq<Group>, name: string, unit: string): int
    decreases |groups|
  {
    if groups == [] then 0
    else if SameKey(groups[0], name, unit) then groups[0].total
    else TotalIn(groups[1..], name, unit)
  }

  /** No two groups share a key. */
  ghost predicate DistinctKeys(groups: seq<Group>) {
    forall i, j :: 0 <= i < j < |groups| ==> !SameKey(groups[j], groups[i].name, groups[i].unit)
  }

  lemma {:induction false} BumpSpec(groups: seq<Group>, it: Item)
    requires DistinctKeys(groups)
    ensures DistinctKeys(Bump(groups, it))
    ensures forall n, u :: HasKey(Bump(groups, it), n, u) <==> HasKey(groups, n, u) || (n == it.name && u == it.unit)
    ensures forall n, u :: (TotalIn(Bump(groups, it), n, u)
      == TotalIn(groups, n, u) + (if n == it.name && u == it.unit then it.amount else 0))
    decreases |groups|
  {
    var b := Bump(groups, it);
    if groups == [] {
      assert b[0] in b;
    } else {
      var g := groups[0];
      var rest := groups[1..];
      assert DistinctKeys(rest) by {
        forall i, j | 0 <= i < j < |rest| ensures !SameKey(rest[j], rest[i].name, rest[i].unit) {
          assert rest[i] == groups[i + 1] && rest[j] == groups[j + 1];
        }
      }
      forall n, u | SameKey(g, n, u) ensures !HasKey(rest, n, u) {}
      if SameKey(g, it.name, it.unit) {
        assert b == [g.(total := g.total + it.amount)] + rest;
        assert b[1..] == rest;
        forall n, u ensures HasKey(b, n, u) <==> HasKey(groups, n, u) || (n == it.name && u == it.unit) {
          if SameKey(g, n, u) {
            assert b[0] in b && SameKey(b[0], n, u);
            assert g in groups;
          }
          if HasKey(groups, n, u) && !SameKey(g, n, u) {
            var h :| h in groups && SameKey(h, n, u);
            assert h in rest;
          }
          if HasKey(b, n, u) && !SameKey(b[0], n, u) {
            var h :| h in b && SameKey(h, n, u);
            assert h in rest;
          }
        }
        forall i, j | 0 <= i < j < |b| ensures !SameKey(b[j], b[i].name, b[i].unit) {
          assert b[j] == groups[j];
          if i > 0 {
            assert b[i] == groups[i];
          }
        }
      } else {
        BumpSpec(rest, it);
        var br := Bump(rest, it);
        assert b == [g] + br;
        assert b[1..] == br;
        forall n, u ensures HasKey(b, n, u) <==> HasKey(groups, n, u) || (n == it.name && u == it.unit) {
          if SameKey(g, n, u) {
            assert b[0] in b && g in groups;
          }
          if HasKey(groups, n, u) && !SameKey(g, n, u) {
            var h :| h in groups && SameKey(h, n, u);
            assert h in rest;
          }
          if HasKey(b, n, u) && !SameKey(g, n, u) {
            var h :| h in b && SameKey(h, n, u);
            assert h in br;
          }
          if HasKey(br, n, u) {
            var h :| h in br && SameKey(h, n, u);
            assert h in b;
          }
        }
        forall i, j | 0 <= i < j < |b| ensures !SameKey(b[j], b[i].name, b[i].unit) {
          if i == 0 {
            assert b[j] in br;
            assert !SameKey(b[j], g.name, g.unit) by {
              if SameKey(b[j], g.name, g.unit) {
                assert HasKey(br, g.name, g.unit);
              }
            }
          } else {
            assert b[i] == br[i - 1] && b[j] == br[j - 1];
          }
        }
      }
    }
  }

  /** The fold computes GROUP BY with SUM: keys are distinct, there is a
      group for a key exactly when some row has that key, and each group's
      total is the sum of the amounts of the rows with its key. */
  lemma {:induction false} AggregateSpec(items: seq<Item>)
    ensures DistinctKeys(Aggregate(items))
    ensures forall n, u :: HasKey(Aggregate(items), n, u) <==> ItemHasKey(items, n, u)
    ensures forall n, u :: TotalIn(Aggregate(items), n, u) == SumFor(items, n, u)
    decreases |items|
  {
    if items != [] {
      var init := items[..|items| - 1];
      var last := items[|items| - 1];
      AggregateSpec(init);
      BumpSpec(Aggregate(init), last);
      forall n, u ensures ItemHasKey(items, n, u) <==> ItemHasKey(init, n, u) || (n == last.name && u == last.unit) {
        if ItemHasKey(items, n, u) {
          var it :| it in items && it.name == n && it.unit == u;
          var k :| 0 <= k < |items| && items[k] == it;
          if k < |items| - 1 {
            assert init[k] == it;
          }
        }
        if ItemHasKey(init, n, u) {
          var it :| it in init && it.name == n && it.unit == u;
          assert it in items;
        }
      }
    }
  }

  /** With distinct keys, the total of a group is the total under its key. */
  lemma {:induction false} TotalOfMember(groups: seq<Group>, k: nat)
    requires DistinctKeys(groups) && k < |groups|
    ensures TotalIn(groups, groups[k].name, groups[k].unit) == groups[k].total
    decreases k
  {
    if k > 0 {
      var rest := groups[1..];
      assert DistinctKeys(rest) by {
        forall i, j | 0 <= i < j < |rest| ensures !SameKey(rest[j], rest[i].name, rest[i].unit) {
          assert rest[i] == groups[i + 1] && rest[j] == groups[j + 1];
        }
      }
      assert !SameKey(groups[k], groups[0].name, groups[0].unit);
      assert rest[k - 1] == groups[k];
      TotalOfMember(rest, k - 1);
    }
  }

  /** One line of the list: `name (unit) - total` and a newline. */
  function Line(g: Group): string {
    g.name + " (" + g.unit + ") - " + IntToString(g.total) + "\n"
  }

  /** The lines of the groups, in order, concatenated. */
  function Render(groups: seq<Group>): string
    decreases |groups|
  {
    if groups == [] then "" else Render(groups[..|groups| - 1]) + Line(groups[|groups| - 1])
  }

  /** The body of the downloaded file. */
  function ShoppingListText(st: Store, user: Id): string {
    Render(Aggregate(CartItems(st, user)))
  }

  /** The shopping list has one group per distinct (name, unit) among the
      join rows of the cart's recipes, and each group's total is the sum of
      those rows' amounts. */
  lemma ShoppingListGroups(st: Store, user: Id)
    ensures DistinctKeys(Aggregate(CartItems(st, user)))
    ensures forall n, u :: HasKey(Aggregate(CartItems(st, user)), n, u) <==> ItemHasKey(CartItems(st, user), n, u)
    ensures forall g :: g in Aggregate(CartItems(st, user)) ==> g.total == SumFor(CartItems(st, user), g.name, g.unit)
  {
    var items := CartItems(st, user);
    var groups := Aggregate(items);
    AggregateSpec(items);
    forall g | g in groups ensures g.total == SumFor(items, g.name, g.unit) {
      var k :| 0 <= k < |groups| && groups[k] == g;
      TotalOfMember(groups, k);
    }
  }

  /** The query's rows are exactly the join rows of recipes in the user's
      cart (whose ingredient exists), in table order. */
  lemma {:induction false} ItemsAreCartRows(rows: seq<JoinRow>, ingredients: seq<Ingredient>, cart: seq<Pair>, user: Id)
    ensures forall it :: it in ItemsOf(rows, ingredients, cart, user) <==>
      exists row :: row in rows && Pair(user, row.recipe) in cart && it.amount == row.amount
        && FindIngredient(ingredients, row.ingredient).Some?
        && FindIngredient(ingredients, row.ingredient).value.name == it.name
        && FindIngredient(ingredients, row.ingredient).value.unit == it.unit
    decreases |rows|
  {
    if rows != [] {
      ItemsAreCartRows(rows[1..], ingredients, cart, user);
      forall row | row in rows ensures row == rows[0] || row in rows[1..] {
        var k :| 0 <= k < |rows| && rows[k] == row;
        if k > 0 {
          assert rows[1..][k - 1] == row;
        }
      }
    }
  }

  /** The join rows of recipes in the user's cart, in table order. */
  function CartRows(rows: seq<JoinRow>, cart: seq<Pair>, user: Id): (r: seq<JoinRow>)
    ensures forall x :: x in r <==> x in rows && Pair(user, x.recipe) in cart
  {
    Filter((row: JoinRow) => Pair(user, row.recipe) in cart, rows)
  }

  /** The join keeps one item per cart row, duplicates included: the k-th
      item carries the k-th cart row's amount and its ingredient's name
      and unit. Two cart recipes that both use 100 g of flour give two
      items, and so a total of 200. */
  lemma {:induction false} OneItemPerCartRow(rows: seq<JoinRow>, ingredients: seq<Ingredient>, cart: seq<Pair>, user: Id)
    requires forall row :: row in rows ==> row.ingredient in IngredientIds(ingredients)
    ensures |ItemsOf(rows, ingredients, cart, user)| == |CartRows(rows, cart, user)|
    ensures forall k :: 0 <= k < |CartRows(rows, cart, user)| ==>
      && ItemsOf(rows, ingredients, cart, user)[k].amount == CartRows(rows, cart, user)[k].amount
      && FindIngredient(ingredients, CartRows(rows, cart, user)[k].ingredient)
         == Some(Ingredient(CartRows(rows, cart, user)[k].ingredient,
                            ItemsOf(rows, ingredients, cart, user)[k].name,
                            ItemsOf(rows, ingredients, cart, user)[k].unit))
    decreases |rows|
  {
    if rows != [] {
      assert forall row :: row in rows[1..] ==> row in rows;
      OneItemPerCartRow(rows[1..], ingredients, cart, user);
      var items := ItemsOf(rows, ingredients, cart, user);
      var rest := ItemsOf(rows[1..], ingredients, cart, user);
      var mine := CartRows(rows, cart, user);
      var others := CartRows(rows[1..], cart, user);
      if Pair(user, rows[0].recipe) in cart {
        var ing := FindIngredient(ingredients, rows[0].ingredient).value;
        assert items == [Item(ing.name, ing.unit, rows[0].amount)] + rest;
        assert mine == [rows[0]] + others;
        forall k | 0 < k < |mine|
          ensures items[k] == rest[k - 1] && mine[k] == others[k - 1]
        {
        }
      } else {
        assert items == rest;
        assert mine == others;
      }
    }
  }

  /** A user without cart rows has no items. */
  lemma {:induction false} NoCartNoItems(rows: seq<JoinRow>, ingredients: seq<Ingredient>, cart: seq<Pair>, user: Id)
    requires forall p :: p in cart ==> p.user != user
    ensures ItemsOf(rows, ingredients, cart, user) == []
    decreases |rows|
  {
    if rows != [] {
      NoCartNoItems(rows[1..], ingredients, cart, user);
    }
  }

  /** An empty cart yields an empty file. */
  lemma EmptyCartEmptyList(st: Store, user: Id)
    requires forall p :: p in st.cart ==> p.user != user
    ensures ShoppingListText(st, user) == ""
  {
    NoCartNoItems(st.rows, st.ingredients, st.cart, user);
  }

  function CountChar(s: string, c: char): nat
    decreases |s|
  {
    if s == [] then 0 else CountChar(s[..|s| - 1], c) + (if s[|s| - 1] == c then 1 else 0)
  }

  lemma {:induction false} CountCharAppend(a: string, b: string, c: char)
    ensures CountChar(a + b, c) == CountChar(a, c) + CountChar(b, c)
    decreases |b|
  {
    if b != [] {
      var init := b[..|b| - 1];
      assert (a + b)[..|a + b| - 1] == a + init;
      assert (a + b)[|a + b| - 1] == b[|b| - 1];
      CountCharAppend(a, init, c);
      assert CountChar(a + b, c) == CountChar(a + init, c) + (if b[|b| - 1] == c then 1 else 0);
    } else {
      assert a + b == a;
    }
  }

  lemma {:induction false} CountCharNone(s: string, c: char)
    requires forall k :: 0 <= k < |s| ==> s[k] != c
    ensures CountChar(s, c) == 0
    decreases |s|
  {
    if s != [] {
      CountCharNone(s[..|s| - 1], c);
    }
  }

  /** A line holds exactly one newline, at its end, when the name and unit
      hold none. */
  lemma LineHasOneNewline(g: Group)
    requires forall k :: 0 <= k < |g.name| ==> g.name[k] != '\n'
    requires forall k :: 0 <= k < |g.unit| ==> g.unit[k] != '\n'
    ensures CountChar(Line(g), '\n') == 1
    ensures Line(g)[|Line(g)| - 1] == '\n'
  {
    var num := IntToString(g.total);
    assert forall k :: 0 <= k < |num| ==> num[k] != '\n' by {
      if g.total < 0 {
        assert num == "-" + NatToString(-g.total);
      }
    }
    CountCharNone(g.name, '\n');
    CountCharNone(g.unit, '\n');
    CountCharNone(num, '\n');
    CountCharAppend(g.name, " (", '\n');
    CountCharAppend(g.name + " (", g.unit, '\n');
    CountCharAppend(g.name + " (" + g.unit, ") - ", '\n');
    CountCharAppend(g.name + " (" + g.unit + ") - ", num, '\n');
    CountCharAppend(g.name + " (" + g.unit + ") - " + num, "\n", '\n');
    CountCharNone(" (", '\n');
    CountCharNone(") - ", '\n');
    assert CountChar("\n", '\n') == 1;
  }

  /** The file holds one line per group: as many newlines as groups, when
      no ingredient name or unit holds a newline. */
  lemma {:induction false} OneLinePerGroup(groups: seq<Group>)
    requires forall g :: g in groups ==>
      (forall k :: 0 <= k < |g.name| ==> g.name[k] != '\n') && (forall k :: 0 <= k < |g.unit| ==> g.unit[k] != '\n')
    ensures CountChar(Render(groups), '\n') == |groups|
    decreases |groups|
  {
    if groups != [] {
      var init := groups[..|groups| - 1];
      OneLinePerGroup(init);
      LineHasOneNewline(groups[|groups| - 1]);
      CountCharAppend(Render(init), Line(groups[|groups| - 1]), '\n');
    }
  }

  /** Two ingredients with the same name and unit merge into one line: a
      cart holding 200 g and then 300 g of flour and 3 eggs yields
      "flour (g) - 500" and "eggs (pcs) - 3". */
  lemma FlourAndEggs()
    ensures Aggregate([Item("flour", "g", 200), Item("eggs", "pcs", 3), Item("flour", "g", 300)])
      == [Group("flour", "g", 500), Group("eggs", "pcs", 3)]
  {
    var items := [Item("flour", "g", 200), Item("eggs", "pcs", 3), Item("flour", "g", 300)];
    assert items[..2] == [Item("flour", "g", 200), Item("eggs", "pcs", 3)];
    assert items[..2][..1] == [Item("flour", "g", 200)];
    assert items[..2][..1][..0] == [];
    assert Aggregate(items[..2][..1]) == [Group("flour", "g", 200)];
    assert Aggregate(items[..2]) == [Group("flour", "g", 200), Group("eggs", "pcs", 3)] by {
      assert Bump([Group("flour", "g", 200)], Item("eggs", "pcs", 3))
        == [Group("flour", "g", 200)] + Bump([], Item("eggs", "pcs", 3));
    }
    assert Bump([Group("flour", "g", 200), Group("eggs", "pcs", 3)], Item("flour", "g", 300))
      == [Group("flour", "g", 500), Group("eggs", "pcs", 3)];
  }

  lemma {:induction false} RenderTwo(a: Group, b: Group)
    ensures Render([a, b]) == Line(a) + Line(b)
  {
    assert [a][..0] == [];
    assert Render([a]) == Line(a) by {
      assert Render([a]) == Render([]) + Line(a);
    }
    assert [a, b][..1] == [a];
  }

  lemma FlourLine()
    ensures Line(Group("flour", "g", 500)) == "flour (g) - 500\n"
  {
    assert IntToString(500) == "500" by {
      assert NatToString(5) == "5";
      assert NatToString(50) == "50";
    }
  }

  lemma EggsLine()
    ensures Line(Group("eggs", "pcs", 3)) == "eggs (pcs) - 3\n"
  {
    assert IntToString(3) == "3";
  }

  /** The two groups of FlourAndEggs render as two lines, in that order. */
  lemma FlourAndEggsRendered()
    ensures Render([Group("flour", "g", 500), Group("eggs", "pcs", 3)]) == "flour (g) - 500\neggs (pcs) - 3\n"
  {
    RenderTwo(Group("flour", "g", 500), Group("eggs", "pcs", 3));
    FlourLine();
    EggsLine();
  }
}
