/** `Series.mode()[0]` over the strings of an object column (missing cells
    already skipped): the most frequent string; pandas returns all tied modes
    sorted, so `[0]` is the least of them in Python's string order. No
    strings means no modes, and `[0]` has nothing to return. */
module Mode {
  import opened Results

  /** Python's `<=` on `str`: lexicographic by code point, a prefix first. */
  predicate LexLeq(a: string, b: string) {
    if a == [] then true
    else if b == [] then false
    else if a[0] != b[0] then a[0] < b[0]
    else LexLeq(a[1..], b[1..])
  }

  lemma {:induction false} LexTotal(a: string, b: string)
    ensures LexLeq(a, b) || LexLeq(b, a)
  {
    if a != [] && b != [] && a[0] == b[0] {
      LexTotal(a[1..], b[1..]);
    }
  }

  lemma {:induction false} LexReflexive(a: string)
    ensures LexLeq(a, a)
  {
    if a != [] {
      LexReflexive(a[1..]);
    }
  }

  lemma {:induction false} LexAntisymmetric(a: string, b: string)
    requires LexLeq(a, b) && LexLeq(b, a)
    ensures a == b
  {
    if a != [] && b != [] {
      LexAntisymmetric(a[1..], b[1..]);
      assert a == [a[0]] + a[1..] && b == [b[0]] + b[1..];
    }
  }

  lemma {:induction false} LexTransitive(a: string, b: string, c: string)
    requires LexLeq(a, b) && LexLeq(b, c)
    ensures LexLeq(a, c)
  {
    if a != [] && b != [] && c != [] && a[0] == b[0] == c[0] {
      LexTransitive(a[1..], b[1..], c[1..]);
    }
  }

  /** Occurrences of `v` in `xs`. */
  function Count(xs: seq<string>, v: string): (n: nat)
    ensures n > 0 <==> v in xs
  {
    if xs == [] then 0 else (if xs[0] == v then 1 else 0) + Count(xs[1..], v)
  }

  /** `a` comes no later than `b` in pandas' list of modes candidates:
      more frequent first, equally frequent in string order. */
  predicate Precedes(xs: seq<string>, a: string, b: string) {
    Count(xs, a) > Count(xs, b) || (Count(xs, a) == Count(xs, b) && LexLeq(a, b))
  }

  /** The candidate that precedes every other candidate. */
  function MostFrequent(xs: seq<string>, cands: seq<string>): (r: string)
    requires cands != []
    ensures r in cands
    ensures forall c :: c in cands ==> Precedes(xs, r, c)
  {
    if |cands| == 1 then
      LexReflexive(cands[0]);
      cands[0]
    else
      var best := MostFrequent(xs, cands[1..]);
      assert cands == [cands[0]] + cands[1..];
      LexTotal(cands[0], best);
      if Precedes(xs, cands[0], best) then
        assert forall c :: c in cands ==> Precedes(xs, cands[0], c) by {
          forall c | c in cands
            ensures Precedes(xs, cands[0], c)
          {
            if c == cands[0] {
              LexReflexive(c);
            } else if Count(xs, c) == Count(xs, cands[0]) {
              LexTransitive(cands[0], best, c);
            }
          }
        }
        cands[0]
      else
        best
  }

  function Mode(xs: seq<string>): (m: Option<string>)
    ensures m.None? <==> xs == []
    ensures m.Some? ==> m.value in xs
    ensures m.Some? ==> forall v :: v in xs ==> Count(xs, v) <= Count(xs, m.value)
    ensures m.Some? ==> forall v :: v in xs && Count(xs, v) == Count(xs, m.value) ==> LexLeq(m.value, v)
  {
    if xs == [] then None else Some(MostFrequent(xs, xs))
  }

  /** Exactly one string is a most frequent one that is least among the tied
      ones, and `Mode` returns it. */
  lemma ModeUnique(xs: seq<string>, v: string)
    requires v in xs
    requires forall w :: w in xs ==> Count(xs, w) <= Count(xs, v)
    requires forall w :: w in xs && Count(xs, w) == Count(xs, v) ==> LexLeq(v, w)
    ensures Mode(xs) == Some(v)
  {
    var m := Mode(xs).value;
    LexAntisymmetric(m, v);
  }
}
