/**
 Monthly food-entry retrieval with gap filling
 (`FatSecret_Library.food_entries_get_month_w_error_checking`).

 The provider's answer is an input: one aggregate entry, a list of per-day
 entries, or a missing-key fault. The answer is normalised to a list, scanned
 for an entry whose `date_int` is the requested day's key, and when none is
 found a zero-valued placeholder for that day is appended.
 */
module MonthEntries {
  import Decimal

  /** One food entry: field name to string-encoded value. */
  type Entry = map<string, string>

  /** What `fs.food_entries_get_month` hands back. */
  datatype ProviderResult =
    | Single(entry: Entry)          // a lone dict
    | Many(entries: seq<Entry>)     // a list of dicts
    | KeyErr                        // the call raised `KeyError`

  /** Field names of an entry. */
  const DateInt := "date_int"
  const Calories := "calories"
  const Carbohydrate := "carbohydrate"
  const Fat := "fat"
  const Protein := "protein"

  /**
   The list the scan runs over. On a fault the variable keeps its initial
   empty dict, and that dict is wrapped like any other lone dict.
   */
  function Normalise(p: ProviderResult): (es: seq<Entry>)
    ensures p.Many? ==> es == p.entries
    ensures !p.Many? ==> |es| == 1
    ensures p.KeyErr? ==> forall key :: !HasKey(es, key)
  {
    match p
    case Single(e) => [e]
    case Many(es) => es
    case KeyErr => [map[]]
  }

  /** `entry.get("date_int") == key`: an entry without the field never matches. */
  predicate Matches(e: Entry, key: string)
    ensures DateInt !in e ==> !Matches(e, key)
  {
    DateInt in e && e[DateInt] == key
  }

  /** Some entry of `es` is addressable by `key`. */
  ghost predicate HasKey(es: seq<Entry>, key: string) {
    exists i :: 0 <= i < |es| && Matches(es[i], key)
  }

  /** The front-to-back scan that stops at the first match. */
  function Scan(es: seq<Entry>, key: string): (found: bool)
    ensures found <==> HasKey(es, key)
  {
    if |es| == 0 then false
    else if Matches(es[0], key) then true
    else
      var rest := Scan(es[1..], key);
      assert HasKey(es[1..], key) ==> HasKey(es, key) by {
        if HasKey(es[1..], key) {
          var i :| 0 <= i < |es[1..]| && Matches(es[1..][i], key);
          assert Matches(es[i + 1], key);
        }
      }
      assert HasKey(es, key) ==> HasKey(es[1..], key) by {
        if HasKey(es, key) {
          var i :| 0 <= i < |es| && Matches(es[i], key);
          assert i != 0;
          assert Matches(es[1..][i - 1], key);
        }
      }
      rest
  }

  /** The zero-valued entry appended for a day the provider has no data for. */
  function Placeholder(key: string): (e: Entry)
    ensures Matches(e, key)
    ensures e.Keys == {Calories, Carbohydrate, DateInt, Fat, Protein}
  {
    map[Calories := "0", Carbohydrate := "0", DateInt := key, Fat := "0", Protein := "0"]
  }

  /** The month's entries for the day with index `dateInt`, gap-filled. */
  function EntriesForMonth(p: ProviderResult, dateInt: int): (r: seq<Entry>)
    ensures |r| >= 1
    ensures HasKey(r, Decimal.Str(dateInt))
    ensures Normalise(p) <= r
    ensures |Normalise(p)| <= |r| <= |Normalise(p)| + 1
    ensures r == Normalise(p) <==> HasKey(Normalise(p), Decimal.Str(dateInt))
  {
    var es := Normalise(p);
    var key := Decimal.Str(dateInt);
    if Scan(es, key) then es
    else
      var r := es + [Placeholder(key)];
      assert Matches(r[|es|], key);
      r
  }

  /** A lone dict becomes the first and only provider entry of the result. */
  lemma SingleIsWrapped(e: Entry, dateInt: int)
    ensures EntriesForMonth(Single(e), dateInt)[0] == e
    ensures EntriesForMonth(Single(e), dateInt)[1..] == [] <==> Matches(e, Decimal.Str(dateInt))
  {
    var key := Decimal.Str(dateInt);
    if !Matches(e, key) {
      assert !HasKey([e], key);
    } else {
      assert HasKey([e], key) by { assert Matches([e][0], key); }
    }
  }

  /** A list answer is kept as it is, in order, at the front of the result. */
  lemma ListIsPrefix(es: seq<Entry>, dateInt: int)
    ensures EntriesForMonth(Many(es), dateInt)[..|es|] == es
  {
  }

  /**
   On a fault the result is the wrapped empty dict followed by the placeholder:
   two entries, not one.
   */
  lemma KeyErrorResult(dateInt: int)
    ensures EntriesForMonth(KeyErr, dateInt) == [map[], Placeholder(Decimal.Str(dateInt))]
    ensures |EntriesForMonth(KeyErr, dateInt)| == 2
  {
    assert !HasKey([map[]], Decimal.Str(dateInt));
  }

  /** When the requested day is already present nothing is appended. */
  lemma PresentDayUnchanged(p: ProviderResult, dateInt: int)
    requires HasKey(Normalise(p), Decimal.Str(dateInt))
    ensures EntriesForMonth(p, dateInt) == Normalise(p)
  {
  }

  /**
   When the requested day is missing exactly one placeholder is appended after
   the provider's entries; all its nutrient fields are "0" and its key is the day's.
   */
  lemma MissingDayAppended(p: ProviderResult, dateInt: int)
    requires !HasKey(Normalise(p), Decimal.Str(dateInt))
    ensures var r := EntriesForMonth(p, dateInt);
      && r == Normalise(p) + [Placeholder(Decimal.Str(dateInt))]
      && |r| == |Normalise(p)| + 1
      && r[|r| - 1][Calories] == "0"
      && r[|r| - 1][Carbohydrate] == "0"
      && r[|r| - 1][Fat] == "0"
      && r[|r| - 1][Protein] == "0"
      && r[|r| - 1][DateInt] == Decimal.Str(dateInt)
  {
  }

  /** The appended placeholder answers only to the requested day. */
  lemma PlaceholderOnlyForItsDay(dateInt: int, other: int)
    ensures Matches(Placeholder(Decimal.Str(dateInt)), Decimal.Str(other)) <==> other == dateInt
  {
    Decimal.StrInjective(dateInt, other);
  }

  /** Feeding a gap-filled month back in for the same day changes nothing. */
  lemma FillIdempotent(p: ProviderResult, dateInt: int)
    ensures EntriesForMonth(Many(EntriesForMonth(p, dateInt)), dateInt) == EntriesForMonth(p, dateInt)
  {
  }

  /** Number of entries of `es` addressable by `key`. */
  function Count(es: seq<Entry>, key: string): (n: nat)
    ensures n <= |es|
    ensures n == 0 <==> !HasKey(es, key)
  {
    if |es| == 0 then 0
    else
      var rest := Count(es[1..], key);
      assert HasKey(es, key) <==> Matches(es[0], key) || HasKey(es[1..], key) by {
        if HasKey(es, key) && !Matches(es[0], key) {
          var i :| 0 <= i < |es| && Matches(es[i], key);
          assert Matches(es[1..][i - 1], key);
        }
        if HasKey(es[1..], key) {
          var i :| 0 <= i < |es[1..]| && Matches(es[1..][i], key);
          assert Matches(es[i + 1], key);
        }
      }
      (if Matches(es[0], key) then 1 else 0) + rest
  }

  lemma {:induction false} CountAppend(a: seq<Entry>, b: seq<Entry>, key: string)
    ensures Count(a + b, key) == Count(a, key) + Count(b, key)
    decreases |a|
  {
    if |a| > 0 {
      assert (a + b)[0] == a[0];
      assert (a + b)[1..] == a[1..] + b;
      CountAppend(a[1..], b, key);
    } else {
      assert a + b == b;
    }
  }

  /**
   The requested day is addressed by exactly one entry of the result, provided
   the provider itself did not send that day twice.
   */
  lemma ExactlyOneForDay(p: ProviderResult, dateInt: int)
    requires Count(Normalise(p), Decimal.Str(dateInt)) <= 1
    ensures Count(EntriesForMonth(p, dateInt), Decimal.Str(dateInt)) == 1
  {
    var key := Decimal.Str(dateInt);
    var es := Normalise(p);
    if !HasKey(es, key) {
      CountAppend(es, [Placeholder(key)], key);
      assert [Placeholder(key)][1..] == [];
    }
  }

  /**
   When the requested day is present, the result has exactly as many entries
   for it as the provider sent: duplicates are neither merged nor dropped.
   */
  lemma PresentCountKept(p: ProviderResult, dateInt: int)
    requires HasKey(Normalise(p), Decimal.Str(dateInt))
    ensures Count(EntriesForMonth(p, dateInt), Decimal.Str(dateInt)) == Count(Normalise(p), Decimal.Str(dateInt))
  {
  }

  /** Duplicates from the provider are passed through: uniqueness is not enforced. */
  lemma DuplicatesKept(dateInt: int)
    ensures var e := map[DateInt := Decimal.Str(dateInt)];
      Count(EntriesForMonth(Many([e, e]), dateInt), Decimal.Str(dateInt)) == 2
  {
    var key := Decimal.Str(dateInt);
    var e := map[DateInt := key];
    assert Matches([e, e][0], key);
    assert [e, e][1..] == [e];
    assert [e][1..] == [];
  }
}
