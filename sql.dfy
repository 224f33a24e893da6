/** The INSERT statement `create_entry` builds: one `?` parameter marker per
    value of the entry, joined by commas. */
module Sql {
  import opened Text

  /** `'?' * n`, taken character by character as `",".join` does. */
  function Marks(n: nat): (marks: seq<string>)
    ensures |marks| == n
    ensures forall k :: 0 <= k < n ==> marks[k] == "?"
  {
    seq(n, _ => "?")
  }

  /** `",".join('?' * n)`: empty exactly when the entry is, and otherwise
      starting with a parameter marker. */
  function Placeholders(n: nat): (p: string)
    ensures p == "" <==> n == 0
    ensures n >= 1 ==> p[0] == '?'
  {
    Join(Marks(n), ",")
  }

  /** The text `create_entry` executes for table `table`, column list
      `rowDetails` (already in its written form, parentheses included) and an
      entry of `n` values. Its `?` characters are the `n` parameter markers
      and those of the table name and the column list, so a statement whose
      names contain no `?` binds exactly one parameter per value. */
  function InsertStatement(table: string, rowDetails: string, n: nat): (sql: string)
    ensures Count(sql, '?') == Count(table, '?') + Count(rowDetails, '?') + n
  {
    var open := " INSERT INTO ";
    var values := "\n                VALUES(";
    assert '?' !in open && '?' !in values && '?' !in ")";
    CountAbsent(open, '?');
    CountAbsent(values, '?');
    CountAbsent(")", '?');
    PlaceholdersCount(n);
    CountIsMultiset(Placeholders(n), '?');
    CountAppend(open, table, '?');
    CountAppend(open + table, rowDetails, '?');
    CountAppend(open + table + rowDetails, values, '?');
    CountAppend(open + table + rowDetails + values, Placeholders(n), '?');
    CountAppend(open + table + rowDetails + values + Placeholders(n), ")", '?');
    open + table + rowDetails + values + Placeholders(n) + ")"
  }

  /** The placeholder list alternates `?` and `,`, starting and ending with
      `?`: it is `2n-1` characters long for `n >= 1` and empty for `n == 0`. */
  lemma {:induction false} PlaceholdersShape(n: nat)
    ensures |Placeholders(n)| == if n == 0 then 0 else 2 * n - 1
    ensures forall i :: 0 <= i < |Placeholders(n)| ==>
      Placeholders(n)[i] == if i % 2 == 0 then '?' else ','
  {
    if n > 1 {
      PlaceholdersShape(n - 1);
      PlaceholdersCons(n);
      var p := Placeholders(n);
      forall i | 2 <= i < |p| ensures p[i] == if i % 2 == 0 then '?' else ',' {
        assert p[i] == Placeholders(n - 1)[i - 2];
      }
    }
  }

  /** The list holds exactly `n` parameter markers. */
  lemma {:induction false} PlaceholdersCount(n: nat)
    ensures multiset(Placeholders(n))['?'] == n
    ensures multiset(Placeholders(n))[','] == if n == 0 then 0 else n - 1
  {
    if n > 1 {
      PlaceholdersCount(n - 1);
      PlaceholdersCons(n);
    }
  }

  /** A list of more than one marker is a marker, a comma and the rest. */
  lemma PlaceholdersCons(n: nat)
    requires n > 1
    ensures Placeholders(n) == "?" + "," + Placeholders(n - 1)
  {
    assert Marks(n)[1..] == Marks(n - 1);
  }

  /** Splitting the list at its commas gives back one `?` per value. */
  lemma PlaceholdersSplit(n: nat)
    requires n >= 1
    ensures Split(Placeholders(n), ',') == Marks(n)
  {
    SplitJoin(Marks(n), ',');
  }

  /** The number of occurrences of `ch` in `s`. */
  function Count(s: string, ch: char): nat
    decreases |s|
  {
    if |s| == 0 then 0 else Count(s[..|s| - 1], ch) + (if s[|s| - 1] == ch then 1 else 0)
  }

  lemma {:induction false} CountAppend(a: string, b: string, ch: char)
    ensures Count(a + b, ch) == Count(a, ch) + Count(b, ch)
    decreases |b|
  {
    if |b| > 0 {
      assert (a + b)[..|a + b| - 1] == a + b[..|b| - 1];
      CountAppend(a, b[..|b| - 1], ch);
    } else {
      assert a + b == a;
    }
  }

  lemma {:induction false} CountIsMultiset(s: string, ch: char)
    ensures Count(s, ch) == multiset(s)[ch]
    decreases |s|
  {
    if |s| > 0 {
      CountIsMultiset(s[..|s| - 1], ch);
      assert s == s[..|s| - 1] + [s[|s| - 1]];
    }
  }

  lemma CountAbsent(s: string, ch: char)
    requires ch !in s
    ensures Count(s, ch) == 0
  {
    CountIsMultiset(s, ch);
  }
}
