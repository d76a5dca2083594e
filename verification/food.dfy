/**
 The `Food` value type: a named nutritional record scaled field-wise by a
 scalar (`__truediv__`, `__mul__`, both through `_func`) and rendered as six
 labelled lines (`__str__`).
 */
module FoodValue {
  import opened Wrappers

  datatype Food = Food(name: string, weight: real, calories: real, fat: real,
                       carbohydrates: real, protein: real)

  /** The right operand of `/` or `*`: an `int`/`float`, or anything else. */
  datatype Scalar = Num(x: real) | Other

  /** The numeric fields, in declaration order. */
  datatype Field = Weight | Calories | Fat | Carbohydrates | Protein

  function Get(food: Food, k: Field): real {
    match k
    case Weight => food.weight
    case Calories => food.calories
    case Fat => food.fat
    case Carbohydrates => food.carbohydrates
    case Protein => food.protein
  }

  /** The binary operator `_func` is handed: `operator.truediv` or `operator.mul`. */
  datatype Op = TrueDiv | Mul {
    function Apply(a: real, s: real): real
      requires TrueDiv? ==> s != 0.0
    {
      if TrueDiv? then a / s else a * s
    }
  }

  /**
   `_func`: a numeric operand gives a new Food with every numeric field put
   through `op` and the name copied; any other operand gives `NotImplemented`.
   */
  function Scale(food: Food, other: Scalar, op: Op): (r: Option<Food>)
    requires op.TrueDiv? && other.Num? ==> other.x != 0.0
    ensures r.None? <==> other.Other?
    ensures r.Some? ==> r.value.name == food.name
    ensures r.Some? ==> forall k :: Get(r.value, k) == op.Apply(Get(food, k), other.x)
  {
    match other
    case Other => None
    case Num(s) =>
      Some(Food(
        name := food.name,
        weight := op.Apply(food.weight, s),
        calories := op.Apply(food.calories, s),
        fat := op.Apply(food.fat, s),
        carbohydrates := op.Apply(food.carbohydrates, s),
        protein := op.Apply(food.protein, s)))
  }

  /** `food / other`; dividing by zero raises in the source, so it is excluded here. */
  function Div(food: Food, other: Scalar): (r: Option<Food>)
    requires other.Num? ==> other.x != 0.0
    ensures r.None? <==> other.Other?
    ensures r.Some? ==> r.value.name == food.name
    ensures r.Some? ==> forall k :: Get(r.value, k) * other.x == Get(food, k)
  {
    Scale(food, other, TrueDiv)
  }

  /** `food * other`. */
  function Mul(food: Food, other: Scalar): (r: Option<Food>)
    ensures r.None? <==> other.Other?
    ensures r.Some? ==> r.value.name == food.name
    ensures r.Some? ==> forall k :: Get(r.value, k) == Get(food, k) * other.x
  {
    Scale(food, other, Op.Mul)
  }

  /** Two Foods with the same name and the same numeric fields are the same Food. */
  lemma FieldsDetermineFood(a: Food, b: Food)
    requires a.name == b.name
    requires forall k :: Get(a, k) == Get(b, k)
    ensures a == b
  {
    assert Get(a, Weight) == Get(b, Weight);
    assert Get(a, Calories) == Get(b, Calories);
    assert Get(a, Fat) == Get(b, Fat);
    assert Get(a, Carbohydrates) == Get(b, Carbohydrates);
    assert Get(a, Protein) == Get(b, Protein);
  }

  /** Dividing by a nonzero scalar undoes multiplying by it. */
  lemma DivUndoesMul(food: Food, s: real)
    requires s != 0.0
    ensures Div(Mul(food, Num(s)).value, Num(s)) == Some(food)
  {
    var m := Mul(food, Num(s)).value;
    var d := Div(m, Num(s)).value;
    forall k ensures Get(d, k) == Get(food, k) {
      assert Get(d, k) * s == Get(m, k) == Get(food, k) * s;
    }
    FieldsDetermineFood(d, food);
  }

  /** Multiplying by a nonzero scalar undoes dividing by it. */
  lemma MulUndoesDiv(food: Food, s: real)
    requires s != 0.0
    ensures Mul(Div(food, Num(s)).value, Num(s)) == Some(food)
  {
    var d := Div(food, Num(s)).value;
    var m := Mul(d, Num(s)).value;
    forall k ensures Get(m, k) == Get(food, k) {
      assert Get(m, k) == Get(d, k) * s == Get(food, k);
    }
    FieldsDetermineFood(m, food);
  }

  /** Both operators refuse a non-numeric operand. */
  lemma NonNumericNotImplemented(food: Food)
    ensures Div(food, Other) == None && Mul(food, Other) == None
  {
  }

  /** The egg halved: every numeric field halves and the name stays. */
  lemma HalfAnEgg()
    ensures Div(Food("egg", 50.0, 70.0, 5.0, 1.0, 6.0), Num(2.0))
         == Some(Food("egg", 25.0, 35.0, 2.5, 0.5, 3.0))
  {
  }

  /** Lines of a string: the pieces between newline characters. */
  function Split(s: string): (lines: seq<string>)
    ensures |lines| >= 1
  {
    if |s| == 0 then [""]
    else
      var rest := Split(s[1..]);
      if s[0] == '\n' then [""] + rest
      else [[s[0]] + rest[0]] + rest[1..]
  }

  /** `"\n".join(lines)`. */
  function Join(lines: seq<string>): string
    requires |lines| >= 1
  {
    if |lines| == 1 then lines[0] else lines[0] + "\n" + Join(lines[1..])
  }

  predicate NoNewline(s: string) {
    forall i :: 0 <= i < |s| ==> s[i] != '\n'
  }

  /** A newline-free prefix glues onto the first line. */
  lemma {:induction false} SplitPrefix(l: string, t: string)
    requires NoNewline(l)
    ensures Split(l + t) == [l + Split(t)[0]] + Split(t)[1..]
    decreases |l|
  {
    if |l| == 0 {
      assert l + t == t;
      assert l + Split(t)[0] == Split(t)[0];
      assert Split(t) == [Split(t)[0]] + Split(t)[1..];
    } else {
      assert (l + t)[1..] == l[1..] + t;
      SplitPrefix(l[1..], t);
      assert [l[0]] + (l[1..] + Split(t)[0]) == l + Split(t)[0];
    }
  }

  /** Splitting a join of newline-free lines gives the lines back. */
  lemma {:induction false} SplitJoin(lines: seq<string>)
    requires |lines| >= 1
    requires forall i :: 0 <= i < |lines| ==> NoNewline(lines[i])
    ensures Split(Join(lines)) == lines
    decreases |lines|
  {
    if |lines| == 1 {
      SplitPrefix(lines[0], "");
      assert lines[0] + "" == lines[0];
    } else {
      var t := "\n" + Join(lines[1..]);
      SplitJoin(lines[1..]);
      assert t[1..] == Join(lines[1..]);
      assert Split(t) == [""] + lines[1..];
      SplitPrefix(lines[0], t);
      assert lines[0] + "" == lines[0];
      assert Join(lines) == lines[0] + t;
    }
  }

  /** The six `label: value` lines of `__str__`, in field order. */
  function Labelled(food: Food, show: real -> string): seq<string> {
    [ "name: " + food.name,
      "weight: " + show(food.weight),
      "calories: " + show(food.calories),
      "fat: " + show(food.fat),
      "carbohydrates: " + show(food.carbohydrates),
      "protein: " + show(food.protein) ]
  }

  /** `__str__`; `show` is how Python formats a number in an f-string. */
  function Render(food: Food, show: real -> string): (r: string)
    ensures "name: " + food.name <= r
  {
    Join(Labelled(food, show))
  }

  /**
   When neither the name nor any formatted number contains a newline, the
   rendering reads back as exactly six lines, `label: value`, in the order
   name, weight, calories, fat, carbohydrates, protein.
   */
  lemma RenderSixLines(food: Food, show: real -> string)
    requires NoNewline(food.name)
    requires forall x :: NoNewline(show(x))
    ensures Split(Render(food, show)) == Labelled(food, show)
    ensures |Split(Render(food, show))| == 6
  {
    var lines := Labelled(food, show);
    forall i | 0 <= i < |lines| ensures NoNewline(lines[i]) {
    }
    SplitJoin(lines);
  }
}
