/** The string operations the program relies on: splitting and joining, slugs,
    code-point order, decimal numerals and substring tests. */
module Text {

  predicate IsLower(c: char) { 'a' <= c <= 'z' }
  predicate IsLetter(c: char) { IsLower(c) || 'A' <= c <= 'Z' }
  predicate IsDigit(c: char) { '0' <= c <= '9' }

  /** The classes written out. */
  lemma CharacterClasses(c: char)
    ensures IsLower(c) <==> c in "abcdefghijklmnopqrstuvwxyz"
    ensures IsLetter(c) <==> c in "abcdefghijklmnopqrstuvwxyz" || c in "ABCDEFGHIJKLMNOPQRSTUVWXYZ"
    ensures IsDigit(c) <==> c in "0123456789"
  {
    LettersInOrder("abcdefghijklmnopqrstuvwxyz", 'a', c);
    LettersInOrder("ABCDEFGHIJKLMNOPQRSTUVWXYZ", 'A', c);
    LettersInOrder("0123456789", '0', c);
  }

  lemma LettersInOrder(s: string, first: char, c: char)
    requires forall i | 0 <= i < |s| :: s[i] as int == first as int + i
    ensures c in s <==> first as int <= c as int < first as int + |s|
  {
    if first as int <= c as int < first as int + |s| {
      assert s[c as int - first as int] == c;
    }
  }

  /** The regular expression [A-Za-z][A-Za-z0-9_]* on a whole string. */
  predicate IsSegment(s: string)
  {
    s != "" && IsLetter(s[0]) && forall c | c in s :: IsLetter(c) || IsDigit(c) || c == '_'
  }

  // ---- Splitting and joining ----

  function Split(s: string, sep: char): (parts: seq<string>)
    ensures parts != []
  {
    if s == "" then [""]
    else
      var rest := Split(s[1..], sep);
      if s[0] == sep then [""] + rest else [[s[0]] + rest[0]] + rest[1..]
  }

  function Join(parts: seq<string>, sep: char): string
  {
    if parts == [] then ""
    else if |parts| == 1 then parts[0]
    else parts[0] + [sep] + Join(parts[1..], sep)
  }

  lemma {:induction false} SplitWithout(s: string, sep: char)
    requires sep !in s
    ensures Split(s, sep) == [s]
  {
    if s != "" {
      SplitWithout(s[1..], sep);
      assert s == [s[0]] + s[1..];
    }
  }

  lemma {:induction false} SplitFirst(head: string, sep: char, tail: string)
    requires sep !in head
    ensures Split(head + [sep] + tail, sep) == [head] + Split(tail, sep)
  {
    var s := head + [sep] + tail;
    if head == "" {
      assert s[1..] == tail;
    } else {
      assert s[1..] == head[1..] + [sep] + tail;
      SplitFirst(head[1..], sep, tail);
      assert head == [head[0]] + head[1..];
    }
  }

  /** Splitting loses nothing: the parts carry no separator and join back. */
  lemma {:induction false} JoinOfSplit(s: string, sep: char)
    ensures Join(Split(s, sep), sep) == s
    ensures forall part | part in Split(s, sep) :: sep !in part
  {
    if s != "" {
      JoinOfSplit(s[1..], sep);
      var rest := Split(s[1..], sep);
      var parts := Split(s, sep);
      assert s == [s[0]] + s[1..];
      if s[0] == sep {
        assert parts[1..] == rest;
      } else {
        assert parts == [[s[0]] + rest[0]] + rest[1..];
        JoinLonger(s[0], rest, sep);
      }
    }
  }

  lemma JoinLonger(c: char, parts: seq<string>, sep: char)
    requires parts != []
    ensures Join([[c] + parts[0]] + parts[1..], sep) == [c] + Join(parts, sep)
  {
    assert ([[c] + parts[0]] + parts[1..])[1..] == parts[1..];
    if |parts| > 1 {
      assert [c] + (parts[0] + [sep] + Join(parts[1..], sep)) == [c] + parts[0] + [sep] + Join(parts[1..], sep);
    }
  }

  lemma {:induction false} SplitOfJoin(parts: seq<string>, sep: char)
    requires parts != []
    requires forall part | part in parts :: sep !in part
    ensures Split(Join(parts, sep), sep) == parts
  {
    if |parts| == 1 {
      SplitWithout(parts[0], sep);
    } else {
      SplitOfJoin(parts[1..], sep);
      SplitFirst(parts[0], sep, Join(parts[1..], sep));
    }
  }

  /** A string starts with a separator-free head and the separator exactly when
      that head is the first of several parts. */
  lemma PrefixIsFirstPart(s: string, sep: char, head: string)
    requires sep !in head
    ensures head + [sep] <= s <==> |Split(s, sep)| > 1 && Split(s, sep)[0] == head
  {
    if head + [sep] <= s {
      var tail := s[|head| + 1..];
      assert s == head + [sep] + tail;
      SplitFirst(head, sep, tail);
    }
    var parts := Split(s, sep);
    if |parts| > 1 && parts[0] == head {
      JoinOfSplit(s, sep);
      assert s == head + [sep] + Join(parts[1..], sep);
    }
  }

  predicate IsGroup(group: string)
  {
    group != "" && forall c | c in group :: IsLower(c) || IsDigit(c)
  }

  /** The regular expression [a-z0-9]+(?:-[a-z0-9]+)* on a whole string:
      hyphen-separated groups, none of them empty. */
  predicate IsSlug(s: string)
  {
    forall group | group in Split(s, '-') :: IsGroup(group)
  }

  /** A slug is a non-empty list of groups with hyphens between them. */
  lemma SlugMeaning(s: string)
    ensures IsSlug(s) <==> exists groups: seq<string> :: groups != [] && Join(groups, '-') == s && forall g | g in groups :: IsGroup(g)
    ensures forall g :: IsGroup(g) <==> g != "" && forall c | c in g :: 'a' <= c <= 'z' || '0' <= c <= '9'
  {
    JoinOfSplit(s, '-');
    if IsSlug(s) {
      assert forall g | g in Split(s, '-') :: IsGroup(g);
    }
    if groups: seq<string> :| groups != [] && Join(groups, '-') == s && forall g | g in groups :: IsGroup(g) {
      forall g | g in groups ensures '-' !in g {
        assert IsGroup(g);
      }
      SplitOfJoin(groups, '-');
    }
  }

  // ---- Code-point order ----

  predicate StringLess(a: string, b: string)
  {
    if b == "" then false
    else if a == "" then true
    else a[0] < b[0] || (a[0] == b[0] && StringLess(a[1..], b[1..]))
  }

  /** The strings agree up to a position where the first has the smaller character. */
  predicate DiffersAt(a: string, b: string, k: int)
  {
    0 <= k < |a| && k < |b| && a[..k] == b[..k] && a[k] < b[k]
  }

  /** Code-point order: a proper prefix comes first, and otherwise the first difference
      decides. */
  lemma {:induction false} StringLessMeaning(a: string, b: string)
    ensures StringLess(a, b) <==> a < b || exists k :: DiffersAt(a, b, k)
  {
    if a != "" && b != "" {
      StringLessMeaning(a[1..], b[1..]);
      if a[0] == b[0] {
        assert a == [a[0]] + a[1..] && b == [b[0]] + b[1..];
        assert a < b <==> a[1..] < b[1..];
        forall k ensures DiffersAt(a, b, k + 1) <==> DiffersAt(a[1..], b[1..], k) {
          DiffersLater(a, b, k);
        }
        if k :| DiffersAt(a[1..], b[1..], k) { assert DiffersAt(a, b, k + 1); }
        if k :| DiffersAt(a, b, k) { assert DiffersAt(a[1..], b[1..], k - 1) by { DiffersLater(a, b, k - 1); } }
      } else {
        assert a[..0] == b[..0];
        assert DiffersAt(a, b, 0) <==> a[0] < b[0];
        forall k | k > 0 && k < |a| && k < |b| ensures a[..k] != b[..k] {
          assert a[..k][0] == a[0] && b[..k][0] == b[0];
        }
      }
    }
  }

  lemma DiffersLater(a: string, b: string, k: int)
    requires a != "" && b != "" && a[0] == b[0]
    ensures k >= 0 ==> (DiffersAt(a, b, k + 1) <==> DiffersAt(a[1..], b[1..], k))
    ensures k < 0 ==> !DiffersAt(a, b, k + 1) && !DiffersAt(a[1..], b[1..], k)
  {
    if 0 <= k < |a| - 1 && k < |b| - 1 {
      assert a[..k + 1] == [a[0]] + a[1..][..k] && b[..k + 1] == [b[0]] + b[1..][..k];
      assert a[1..][..k] == a[..k + 1][1..] && b[1..][..k] == b[..k + 1][1..];
    }
  }

  lemma {:induction false} StringLessAsymmetric(a: string, b: string)
    ensures !(StringLess(a, b) && StringLess(b, a))
  {
    if a != "" && b != "" {
      StringLessAsymmetric(a[1..], b[1..]);
    }
  }

  lemma {:induction false} StringLessTransitive(a: string, b: string, c: string)
    requires StringLess(a, b) && StringLess(b, c)
    ensures StringLess(a, c)
  {
    if a != "" && a[0] == b[0] == c[0] {
      StringLessTransitive(a[1..], b[1..], c[1..]);
    }
  }

  lemma {:induction false} StringLessTotal(a: string, b: string)
    requires a != b
    ensures StringLess(a, b) || StringLess(b, a)
  {
    if a != "" && b != "" && a[0] == b[0] {
      assert a == [a[0]] + a[1..] && b == [b[0]] + b[1..];
      StringLessTotal(a[1..], b[1..]);
    }
  }

  lemma StringOrder()
    ensures forall a, b :: !(StringLess(a, b) && StringLess(b, a))
    ensures forall a, b, c :: StringLess(a, b) && StringLess(b, c) ==> StringLess(a, c)
    ensures forall a, b :: a == b || StringLess(a, b) || StringLess(b, a)
  {
    forall a, b ensures !(StringLess(a, b) && StringLess(b, a)) {
      StringLessAsymmetric(a, b);
    }
    forall a, b, c | StringLess(a, b) && StringLess(b, c) ensures StringLess(a, c) {
      StringLessTransitive(a, b, c);
    }
    forall a: string, b: string | a != b ensures StringLess(a, b) || StringLess(b, a) {
      StringLessTotal(a, b);
    }
  }

  // ---- Substrings ----

  predicate OccursAt(sub: string, s: string, i: nat)
  {
    i + |sub| <= |s| && s[i..i + |sub|] == sub
  }

  predicate IsSubstring(sub: string, s: string)
  {
    exists i: nat | i <= |s| :: OccursAt(sub, s, i)
  }

  predicate EndsWith(s: string, suffix: string)
  {
    |suffix| <= |s| && s[|s| - |suffix|..] == suffix
  }

  // ---- Decimal numerals ----

  function Digit(d: nat): (c: char)
    requires d < 10
    ensures IsDigit(c)
  {
    '0' + d as char
  }

  function Decimal(n: nat): (s: string)
    ensures s != "" && forall c | c in s :: IsDigit(c)
  {
    if n < 10 then [Digit(n)] else Decimal(n / 10) + [Digit(n % 10)]
  }

  function DecimalValue(s: string): nat
    requires forall c | c in s :: IsDigit(c)
  {
    if s == "" then 0
    else
      var last := s[|s| - 1];
      assert IsDigit(last);
      DecimalValue(s[..|s| - 1]) * 10 + (last as int - '0' as int)
  }

  lemma {:induction false} DecimalRoundTrip(n: nat)
    ensures DecimalValue(Decimal(n)) == n
  {
    var s := Decimal(n);
    if n < 10 {
      assert s[..0] == "";
    } else {
      DecimalRoundTrip(n / 10);
      assert s[..|s| - 1] == Decimal(n / 10);
    }
  }
}
