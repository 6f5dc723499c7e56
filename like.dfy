/** The case-insensitive LIKE predicate (ISO/IEC 9075-2 section 8.5, in
    PostgreSQL's ILIKE form) that the message filters hand to the database:
    `%` matches any run of characters, `_` any one character, and every
    other character itself up to case. It is the reference meaning of the
    patterns the message controller builds. */
module Like {

  /** Case folding (ASCII letters only). */
  function Fold(c: char): char
  {
    if 'A' <= c <= 'Z' then (c as int + 32) as char else c
  }

  function Lower(s: string): (r: string)
    ensures |r| == |s| && forall k :: 0 <= k < |s| ==> r[k] == Fold(s[k])
  {
    seq(|s|, k requires 0 <= k < |s| => Fold(s[k]))
  }

  /** A pattern character that stands only for itself. */
  predicate Literal(q: string)
  {
    forall k :: 0 <= k < |q| ==> q[k] != '%' && q[k] != '_'
  }

  /** `t ILIKE p`. */
  predicate Matches(p: string, t: string)
    decreases |p| + |t|
  {
    if p == [] then t == []
    else if p[0] == '%' then Matches(p[1..], t) || (t != [] && Matches(p, t[1..]))
    else t != [] && (p[0] == '_' || Fold(p[0]) == Fold(t[0])) && Matches(p[1..], t[1..])
  }

  /** `q` occurs in `t` at position `i`, up to case. */
  predicate OccursAt(q: string, t: string, i: int)
  {
    0 <= i <= |t| - |q| && Lower(q) == Lower(t[i..i + |q|])
  }

  /** A literal head of a pattern consumes exactly its own length of text. */
  lemma {:induction false} LiteralThen(q: string, p: string, t: string)
    requires Literal(q)
    ensures Matches(q + p, t) <==> OccursAt(q, t, 0) && Matches(p, t[|q|..])
    decreases |q|
  {
    if q != [] {
      var qp := q + p;
      assert qp[1..] == q[1..] + p;
      if t == [] {
        assert !Matches(qp, t);
      } else {
        LiteralThen(q[1..], p, t[1..]);
        if |q| <= |t| {
          assert t[1..][|q| - 1..] == t[|q|..];
        }
        if OccursAt(q, t, 0) {
          assert Lower(q[1..]) == Lower(t[1..][..|q| - 1]) by {
            forall k | 0 <= k < |q| - 1
              ensures Lower(q[1..])[k] == Lower(t[1..][..|q| - 1])[k]
            {
              assert Lower(q)[k + 1] == Lower(t[..|q|])[k + 1];
            }
          }
        }
        if Fold(q[0]) == Fold(t[0]) && OccursAt(q[1..], t[1..], 0) {
          assert Lower(q) == Lower(t[..|q|]) by {
            forall k | 0 <= k < |q| ensures Lower(q)[k] == Lower(t[..|q|])[k] {
              if k > 0 {
                assert Lower(q[1..])[k - 1] == Lower(t[1..][..|q| - 1])[k - 1];
              }
            }
          }
        }
      }
    } else {
      assert q + p == p;
    }
  }

  /** A lone `%` matches every text. */
  lemma {:induction false} PercentMatchesAll(t: string)
    ensures Matches("%", t)
    decreases |t|
  {
    if t != [] {
      PercentMatchesAll(t[1..]);
    }
  }

  /** A leading `%` lets the rest of the pattern match any suffix. */
  lemma {:induction false} PercentThen(p: string, t: string)
    ensures Matches("%" + p, t) <==> exists i :: 0 <= i <= |t| && Matches(p, t[i..])
    decreases |t|
  {
    var pp := "%" + p;
    assert pp[0] == '%' && pp[1..] == p;
    if t == [] {
      assert t[0..] == t;
    } else {
      PercentThen(p, t[1..]);
      if Matches(p, t) {
        assert t[0..] == t;
      }
      if Matches(pp, t[1..]) {
        var i :| 0 <= i <= |t[1..]| && Matches(p, t[1..][i..]);
        assert t[1..][i..] == t[i + 1..];
        assert 0 <= i + 1 <= |t| && Matches(p, t[i + 1..]);
      }
      if exists i :: 0 <= i <= |t| && Matches(p, t[i..]) {
        var i :| 0 <= i <= |t| && Matches(p, t[i..]);
        if i == 0 {
          assert t[0..] == t;
        } else {
          assert t[1..][i - 1..] == t[i..];
          assert 0 <= i - 1 <= |t[1..]| && Matches(p, t[1..][i - 1..]);
          assert Matches(pp, t[1..]);
        }
        assert Matches(pp, t);
      }
    }
  }

  /** A literal pattern matches exactly the texts equal to it up to case. */
  lemma ExactMeaning(q: string, t: string)
    requires Literal(q)
    ensures Matches(q, t) <==> Lower(q) == Lower(t)
  {
    LiteralThen(q, [], t);
    assert q + [] == q;
    if Lower(q) == Lower(t) {
      assert t[..|q|] == t;
    }
  }

  /** `q%` matches exactly the texts that start with `q` up to case. */
  lemma PrefixMeaning(q: string, t: string)
    requires Literal(q)
    ensures Matches(q + "%", t) <==> OccursAt(q, t, 0)
  {
    LiteralThen(q, "%", t);
    if OccursAt(q, t, 0) {
      PercentMatchesAll(t[|q|..]);
    }
  }

  /** `%q` matches exactly the texts that end with `q` up to case. */
  lemma SuffixMeaning(q: string, t: string)
    requires Literal(q)
    ensures Matches("%" + q, t) <==> OccursAt(q, t, |t| - |q|)
  {
    PercentThen(q, t);
    if Matches("%" + q, t) {
      var i :| 0 <= i <= |t| && Matches(q, t[i..]);
      ExactMeaning(q, t[i..]);
      SuffixAt(q, t, i);
    }
    if OccursAt(q, t, |t| - |q|) {
      var i := |t| - |q|;
      SuffixAt(q, t, i);
      ExactMeaning(q, t[i..]);
    }
  }

  lemma SuffixAt(q: string, t: string, i: int)
    requires 0 <= i <= |t|
    ensures Lower(q) == Lower(t[i..]) <==> OccursAt(q, t, |t| - |q|) && i == |t| - |q|
  {
    if i == |t| - |q| {
      assert t[i..] == t[i..i + |q|];
    }
  }

  /** `%q%` matches exactly the texts that contain `q` up to case. */
  lemma SubstringMeaning(q: string, t: string)
    requires Literal(q)
    ensures Matches("%" + q + "%", t) <==> exists i :: OccursAt(q, t, i)
  {
    assert "%" + q + "%" == "%" + (q + "%");
    PercentThen(q + "%", t);
    if Matches("%" + q + "%", t) {
      var i :| 0 <= i <= |t| && Matches(q + "%", t[i..]);
      PrefixMeaning(q, t[i..]);
      assert t[i..][..|q|] == t[i..i + |q|];
      assert OccursAt(q, t, i);
    }
    if exists i :: OccursAt(q, t, i) {
      var i :| OccursAt(q, t, i);
      assert t[i..][..|q|] == t[i..i + |q|];
      PrefixMeaning(q, t[i..]);
    }
  }
}
