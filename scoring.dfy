/**
 `do_stats`: precision, recall and F1 of a found node set against the
 reference ("expert") set, with exact rational arithmetic.
 */
module Scoring {
  import opened CitationGraph

  datatype Stats = Stats(precision: real, recall: real, f1: real)

  /** A value, or Python's `ZeroDivisionError` raised by `do_stats`, the only failure modelled. */
  datatype Outcome<T> = Ok(value: T) | ZeroDivisionError

  /** `|a| / |b|` as an exact ratio. */
  function Ratio(a: nat, b: nat): real
    requires b > 0
  {
    a as real / b as real
  }

  /** A ratio of counts is 0 exactly when the numerator is, and at most 1 when the numerator is at most the denominator. */
  lemma RatioBounds(a: nat, b: nat)
    requires b > 0
    ensures a == 0 ==> Ratio(a, b) == 0.0
    ensures a > 0 ==> Ratio(a, b) > 0.0
    ensures a <= b ==> Ratio(a, b) <= 1.0
  {
    var x := Ratio(a, b);
    assert x * b as real == a as real;
    if a <= b && x > 1.0 {
      assert x * b as real > 1.0 * b as real;
    }
  }

  /** A subset is no larger than its superset. */
  lemma {:induction false} SubsetCardinality(a: set<DocId>, b: set<DocId>)
    requires a <= b
    ensures |a| <= |b|
  {
    if a != {} {
      var x :| x in a;
      SubsetCardinality(a - {x}, b - {x});
    }
  }

  /** The F1 expression of line 115, `2 * (p * r) / (p + r)`. */
  function F1(p: real, r: real): real
    requires p + r != 0.0
  {
    2.0 * (p * r) / (p + r)
  }

  /** Dividing by a non-zero number and multiplying back is the identity. */
  lemma DivTimes(x: real, y: real)
    requires y != 0.0
    ensures x / y * y == x
  {
  }

  /** Multiplying by a non-negative number preserves `<=`. */
  lemma MulMono(a: real, b: real, c: real)
    requires a <= b && 0.0 <= c
    ensures a * c <= b * c
  {
    assert b * c - a * c == (b - a) * c;
  }

  /** Multiplying by a positive number preserves `<`. */
  lemma MulStrictMono(a: real, b: real, c: real)
    requires a < b && 0.0 < c
    ensures a * c < b * c
  {
    assert b * c - a * c == (b - a) * c;
  }

  /** The F1 of two ordered non-negative numbers lies between them. */
  lemma F1Ordered(lo: real, hi: real)
    requires 0.0 <= lo <= hi && lo + hi > 0.0
    ensures lo <= F1(lo, hi) <= hi
  {
    var f := F1(lo, hi);
    var s := lo + hi;
    var twice := 2.0 * (lo * hi);
    assert f * s == twice by {
      assert f == twice / s;
      DivTimes(twice, s);
    }
    assert lo * s <= twice by {
      MulMono(lo, hi, lo);
    }
    assert twice <= hi * s by {
      MulMono(lo, hi, hi);
    }
    if f < lo {
      MulStrictMono(f, lo, s);
    }
    if f > hi {
      MulStrictMono(hi, f, s);
    }
  }

  /** F1 is a harmonic mean: it lies between precision and recall. */
  lemma F1Between(p: real, r: real)
    requires 0.0 <= p && 0.0 <= r && p + r > 0.0
    ensures (if p <= r then p else r) <= F1(p, r) <= (if p <= r then r else p)
  {
    if p <= r {
      F1Ordered(p, r);
    } else {
      F1Ordered(r, p);
      assert F1(p, r) == F1(r, p);
    }
  }

  /**
   `do_stats(nodes)` with the reference set passed in as `expert`. It fails
   exactly when the found set is empty (line 113), the reference set is
   empty (line 114), or the two share nothing, so that precision + recall
   is 0 (line 115). Otherwise precision and recall lie in (0, 1], and F1 is
   their harmonic mean, which lies between them and so in (0, 1].
   */
  function DoStats(nodes: set<DocId>, expert: set<DocId>): (r: Outcome<Stats>)
    ensures r.ZeroDivisionError? <==> nodes == {} || expert == {} || nodes * expert == {}
    ensures r.Ok? ==>
              && r.value.precision == Ratio(|nodes * expert|, |nodes|)
              && r.value.recall == Ratio(|nodes * expert|, |expert|)
              && 0.0 < r.value.precision <= 1.0
              && 0.0 < r.value.recall <= 1.0
              && (if r.value.precision <= r.value.recall then r.value.precision else r.value.recall) <= r.value.f1
              && r.value.f1 <= (if r.value.precision <= r.value.recall then r.value.recall else r.value.precision)
              && r.value.f1 == F1(r.value.precision, r.value.recall)
              && 0.0 < r.value.f1 <= 1.0
  {
    if |nodes| == 0 then ZeroDivisionError
    else
      var common := |nodes * expert|;
      var precision := Ratio(common, |nodes|);
      if |expert| == 0 then ZeroDivisionError
      else
        var recall := Ratio(common, |expert|);
        RatioBounds(common, |nodes|);
        RatioBounds(common, |expert|);
        if precision + recall == 0.0 then ZeroDivisionError
        else
          SubsetCardinality(nodes * expert, nodes);
          SubsetCardinality(nodes * expert, expert);
          F1Between(precision, recall);
          Ok(Stats(precision, recall, F1(precision, recall)))
  }
}
