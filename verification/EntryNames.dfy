/** packages/activepieces-inventory/src/index.ts: the normal form of an action's or trigger's name. */
module EntryNames {
  import opened Text

  predicate Upper(c: char) { 'A' <= c <= 'Z' }
  predicate LowerOrDigit(c: char) { 'a' <= c <= 'z' || '0' <= c <= '9' }
  predicate Alnum(c: char) { Upper(c) || LowerOrDigit(c) }

  /** A new word starts between the two characters. */
  predicate Camel(c: char, d: char) { LowerOrDigit(c) && Upper(d) }

  function TrimEnd(s: string): string {
    if s != "" && IsSpace(s[|s| - 1]) then TrimEnd(s[..|s| - 1]) else s
  }

  /** An underscore between a lower-case letter or digit and the capital behind it. */
  function SplitCamel(s: string): string {
    if |s| < 2 then s
    else [s[0]] + (if Camel(s[0], s[1]) then "_" else "") + SplitCamel(s[1..])
  }

  /** The part of `s` behind its leading run of other characters than letters and digits. */
  function SkipOthers(s: string): (r: string)
    ensures |r| <= |s|
    ensures r != "" ==> Alnum(r[0])
  {
    if s != "" && !Alnum(s[0]) then SkipOthers(s[1..]) else s
  }

  /** Every maximal run of other characters becomes one underscore. */
  function Collapse(s: string): string
    decreases |s|
  {
    if s == "" then ""
    else if Alnum(s[0]) then [s[0]] + Collapse(s[1..])
    else "_" + Collapse(SkipOthers(s[1..]))
  }

  function StripStart(s: string): string {
    if s != "" && s[0] == '_' then StripStart(s[1..]) else s
  }

  function StripEnd(s: string): string {
    if s != "" && s[|s| - 1] == '_' then StripEnd(s[..|s| - 1]) else s
  }

  /** Lower case; only ASCII letters are left when it is applied. */
  function Lower(s: string): (r: string)
    ensures |r| == |s| && forall i :: 0 <= i < |s| ==> r[i] == LowerChar(s[i])
  {
    seq(|s|, i requires 0 <= i < |s| => LowerChar(s[i]))
  }

  function NormalizeEntryName(value: string): string {
    Lower(StripEnd(StripStart(Collapse(SplitCamel(TrimEnd(TrimStart(value)))))))
  }

  // ----- The normal form -----

  /** Runs of lower-case letters and digits joined by single underscores, or nothing. */
  ghost predicate NormalForm(s: string) {
    && (forall i :: 0 <= i < |s| ==> LowerOrDigit(s[i]) || s[i] == '_')
    && (forall i :: 0 <= i < |s| - 1 ==> s[i] != '_' || s[i + 1] != '_')
    && (s != "" ==> s[0] != '_' && s[|s| - 1] != '_')
  }

  /** Letters and digits of either case and single underscores. */
  ghost predicate Collapsed(s: string) {
    && (forall i :: 0 <= i < |s| ==> Alnum(s[i]) || s[i] == '_')
    && (forall i :: 0 <= i < |s| - 1 ==> s[i] != '_' || s[i + 1] != '_')
  }

  lemma {:induction false} CollapseCollapses(s: string)
    ensures Collapsed(Collapse(s))
    ensures s != "" ==> Collapse(s) != "" && (Collapse(s)[0] == '_' <==> !Alnum(s[0]))
    decreases |s|
  {
    if s != "" {
      var rest := if Alnum(s[0]) then s[1..] else SkipOthers(s[1..]);
      CollapseCollapses(rest);
    }
  }

  lemma {:induction false} StripStartCollapsed(s: string)
    requires Collapsed(s)
    ensures Collapsed(StripStart(s)) && (StripStart(s) != "" ==> StripStart(s)[0] != '_')
  {
    if s != "" && s[0] == '_' {
      StripStartCollapsed(s[1..]);
    }
  }

  lemma {:induction false} StripEndCollapsed(s: string)
    requires Collapsed(s) && (s != "" ==> s[0] != '_')
    ensures Collapsed(StripEnd(s))
    ensures StripEnd(s) != "" ==> StripEnd(s)[0] != '_' && StripEnd(s)[|StripEnd(s)| - 1] != '_'
  {
    if s != "" && s[|s| - 1] == '_' {
      StripEndCollapsed(s[..|s| - 1]);
    }
  }

  lemma NormalizeIsNormal(value: string)
    ensures NormalForm(NormalizeEntryName(value))
  {
    var collapsed := Collapse(SplitCamel(TrimEnd(TrimStart(value))));
    CollapseCollapses(SplitCamel(TrimEnd(TrimStart(value))));
    StripStartCollapsed(collapsed);
    StripEndCollapsed(StripStart(collapsed));
  }

  lemma {:induction false} NothingToSplit(s: string)
    requires forall i :: 0 <= i < |s| ==> !Upper(s[i])
    ensures SplitCamel(s) == s
  {
    if |s| >= 2 {
      NothingToSplit(s[1..]);
    }
  }

  lemma {:induction false} NothingToCollapse(s: string)
    requires Collapsed(s)
    ensures Collapse(s) == s
    decreases |s|
  {
    if s != "" {
      NothingToCollapse(s[1..]);
      assert s == [s[0]] + s[1..];
      if !Alnum(s[0]) {
        assert SkipOthers(s[1..]) == s[1..];
      }
    }
  }

  /** A name is left as it is exactly when it is in normal form. */
  lemma NormalIffFixed(s: string)
    ensures NormalizeEntryName(s) == s <==> NormalForm(s)
  {
    NormalizeIsNormal(s);
    if NormalForm(s) {
      assert TrimEnd(TrimStart(s)) == s;
      NothingToSplit(s);
      NothingToCollapse(s);
      assert Lower(s) == s;
    }
  }

  lemma NormalizeIdempotent(value: string)
    ensures NormalizeEntryName(NormalizeEntryName(value)) == NormalizeEntryName(value)
  {
    NormalizeIsNormal(value);
    NormalIffFixed(NormalizeEntryName(value));
  }

  // ----- Letters and digits are kept -----

  /** The letters and digits of a text, in order. */
  function Letters(s: string): string {
    if s == "" then "" else (if Alnum(s[0]) then [s[0]] else "") + Letters(s[1..])
  }

  lemma {:induction false} LettersConcat(a: string, b: string)
    ensures Letters(a + b) == Letters(a) + Letters(b)
  {
    if a == "" {
      assert a + b == b;
    } else {
      assert (a + b)[1..] == a[1..] + b && (a + b)[0] == a[0];
      LettersConcat(a[1..], b);
      var first := if Alnum(a[0]) then [a[0]] else "";
      assert Letters(a) == first + Letters(a[1..]) && Letters(a + b) == first + Letters(a[1..] + b);
    }
  }

  lemma {:induction false} LettersOfOthers(s: string)
    requires forall i :: 0 <= i < |s| ==> !Alnum(s[i])
    ensures Letters(s) == ""
  {
    if s != "" {
      LettersOfOthers(s[1..]);
    }
  }

  lemma LettersDropLast(s: string)
    requires s != "" && !Alnum(s[|s| - 1])
    ensures Letters(s) == Letters(s[..|s| - 1])
  {
    assert s == s[..|s| - 1] + [s[|s| - 1]];
    LettersConcat(s[..|s| - 1], [s[|s| - 1]]);
    LettersOfOthers([s[|s| - 1]]);
  }

  lemma {:induction false} TrimKeepsLetters(s: string)
    ensures Letters(TrimStart(s)) == Letters(s) && Letters(TrimEnd(s)) == Letters(s)
  {
    if s != "" && IsSpace(s[0]) {
      TrimKeepsLetters(s[1..]);
    }
    if s != "" && IsSpace(s[|s| - 1]) {
      TrimKeepsLetters(s[..|s| - 1]);
      LettersDropLast(s);
    }
  }

  lemma {:induction false} StripKeepsLetters(s: string)
    ensures Letters(StripStart(s)) == Letters(s) && Letters(StripEnd(s)) == Letters(s)
  {
    if s != "" && s[0] == '_' {
      StripKeepsLetters(s[1..]);
    }
    if s != "" && s[|s| - 1] == '_' {
      StripKeepsLetters(s[..|s| - 1]);
      LettersDropLast(s);
    }
  }

  lemma {:induction false} SplitKeepsLetters(s: string)
    ensures Letters(SplitCamel(s)) == Letters(s)
  {
    if |s| >= 2 {
      SplitKeepsLetters(s[1..]);
      var head := [s[0]] + if Camel(s[0], s[1]) then "_" else "";
      LettersConcat(head, SplitCamel(s[1..]));
      LettersConcat([s[0]], s[1..]);
      assert s == [s[0]] + s[1..];
      if Camel(s[0], s[1]) {
        assert head[1..] == "_" && Letters("_") == "";
      }
    }
  }

  lemma {:induction false} SkipKeepsLetters(s: string)
    ensures Letters(SkipOthers(s)) == Letters(s)
  {
    if s != "" && !Alnum(s[0]) {
      SkipKeepsLetters(s[1..]);
    }
  }

  lemma {:induction false} CollapseKeepsLetters(s: string)
    ensures Letters(Collapse(s)) == Letters(s)
    decreases |s|
  {
    if s != "" {
      if Alnum(s[0]) {
        CollapseKeepsLetters(s[1..]);
        assert Collapse(s)[1..] == Collapse(s[1..]);
      } else {
        CollapseKeepsLetters(SkipOthers(s[1..]));
        SkipKeepsLetters(s[1..]);
        assert Collapse(s)[1..] == Collapse(SkipOthers(s[1..]));
      }
    }
  }

  lemma {:induction false} LowerLetters(s: string)
    ensures Letters(Lower(s)) == Lower(Letters(s))
  {
    if s != "" {
      LowerLetters(s[1..]);
      assert Lower(s)[1..] == Lower(s[1..]);
      var head := if Alnum(s[0]) then [s[0]] else "";
      assert Lower(head + Letters(s[1..])) == Lower(head) + Lower(Letters(s[1..]));
    }
  }

  /** Normalising keeps every letter and digit, in order and in lower case; only the underscores are new. */
  lemma NormalizeKeepsLetters(value: string)
    ensures Letters(NormalizeEntryName(value)) == Lower(Letters(value))
  {
    var trimmed := TrimEnd(TrimStart(value));
    TrimKeepsLetters(value);
    TrimKeepsLetters(TrimStart(value));
    SplitKeepsLetters(trimmed);
    CollapseKeepsLetters(SplitCamel(trimmed));
    StripKeepsLetters(Collapse(SplitCamel(trimmed)));
    StripKeepsLetters(StripStart(Collapse(SplitCamel(trimmed))));
    LowerLetters(StripEnd(StripStart(Collapse(SplitCamel(trimmed)))));
  }

  // ----- Where the underscores go -----

  ghost predicate NoAlnum(s: string) {
    forall i :: 0 <= i < |s| ==> !Alnum(s[i])
  }

  /** Begins and ends with a letter or digit. */
  predicate Solid(s: string) {
    s != "" && Alnum(s[0]) && Alnum(s[|s| - 1])
  }

  /** What separates two solid texts with `gap` between them. */
  function Separator(a: string, gap: string, b: string): string
    requires a != "" && b != ""
  {
    if gap != "" || Camel(a[|a| - 1], b[0]) then "_" else ""
  }

  lemma {:induction false} SplitConcat(a: string, b: string)
    requires a != "" && b != ""
    ensures SplitCamel(a + b) == SplitCamel(a) + Separator(a, "", b) + SplitCamel(b)
  {
    if |a| == 1 {
      assert (a + b)[1..] == b;
    } else {
      assert (a + b)[1..] == a[1..] + b;
      SplitConcat(a[1..], b);
    }
  }

  lemma {:induction false} SplitEnds(a: string)
    requires a != ""
    ensures SplitCamel(a) != "" && SplitCamel(a)[0] == a[0] && SplitCamel(a)[|SplitCamel(a)| - 1] == a[|a| - 1]
  {
    if |a| > 1 {
      SplitEnds(a[1..]);
    }
  }

  lemma {:induction false} SkipConcat(a: string, b: string)
    requires a != "" && Alnum(a[|a| - 1])
    ensures SkipOthers(a + b) == SkipOthers(a) + b
    ensures SkipOthers(a) != "" && Alnum(SkipOthers(a)[|SkipOthers(a)| - 1])
  {
    if !Alnum(a[0]) {
      assert (a + b)[1..] == a[1..] + b;
      SkipConcat(a[1..], b);
    }
  }

  lemma CollapseStep(s: string, rest: string)
    requires s != "" && s[1..] == rest
    ensures Collapse(s) == if Alnum(s[0]) then [s[0]] + Collapse(rest) else "_" + Collapse(SkipOthers(rest))
  {
  }

  lemma Associate(x: string, y: string, z: string)
    ensures x + (y + z) == (x + y) + z
  {
  }

  lemma {:induction false} CollapseConcat(a: string, b: string)
    requires a == "" || Alnum(a[|a| - 1])
    ensures Collapse(a + b) == Collapse(a) + Collapse(b)
    decreases |a|
  {
    if a == "" {
      assert a + b == b;
    } else {
      var t := a[1..];
      CollapseStep(a, t);
      CollapseStep(a + b, t + b);
      if Alnum(a[0]) {
        CollapseConcat(t, b);
        Associate([a[0]], Collapse(t), Collapse(b));
      } else {
        SkipConcat(t, b);
        CollapseConcat(SkipOthers(t), b);
        Associate("_", Collapse(SkipOthers(t)), Collapse(b));
      }
    }
  }

  lemma {:induction false} SkipAll(gap: string, b: string)
    requires NoAlnum(gap) && (b != "" ==> Alnum(b[0]))
    ensures SkipOthers(gap + b) == b
  {
    if gap == "" {
      assert gap + b == b;
    } else {
      assert (gap + b)[1..] == gap[1..] + b;
      SkipAll(gap[1..], b);
    }
  }

  /** A run of other characters in front of a text that starts with a letter or digit. */
  lemma CollapseGap(gap: string, b: string)
    requires NoAlnum(gap) && (b != "" ==> Alnum(b[0]))
    ensures Collapse(gap + b) == (if gap == "" then "" else "_") + Collapse(b)
  {
    if gap == "" {
      assert gap + b == b;
    } else {
      assert (gap + b)[1..] == gap[1..] + b;
      SkipAll(gap[1..], b);
    }
  }

  /** The pipeline's middle part. */
  function Words(s: string): string {
    Collapse(SplitCamel(s))
  }

  lemma WordsOfGap(gap: string, b: string)
    requires NoAlnum(gap) && (b != "" ==> Alnum(b[0]))
    ensures Words(gap + b) == (if gap == "" then "" else "_") + Words(b)
  {
    if gap == "" {
      assert gap + b == b;
    } else if b == "" {
      assert gap + b == gap;
      NothingToSplit(gap);
      CollapseGap(gap, "");
    } else {
      SplitConcat(gap, b);
      NothingToSplit(gap);
      SplitEnds(b);
      assert Separator(gap, "", b) == "";
      assert SplitCamel(gap + b) == gap + SplitCamel(b);
      CollapseGap(gap, SplitCamel(b));
    }
  }

  lemma WordsOf(s: string, x: string, y: string)
    requires SplitCamel(s) == x + y && (x == "" || Alnum(x[|x| - 1]))
    ensures Words(s) == Collapse(x) + Collapse(y)
  {
    CollapseConcat(x, y);
  }

  lemma SplitAppend(a: string, b: string) returns (tail: string)
    requires a != "" && Alnum(a[|a| - 1]) && b != ""
    ensures tail == Separator(a, "", b) + SplitCamel(b) && SplitCamel(a + b) == SplitCamel(a) + tail
    ensures SplitCamel(a) != "" && Alnum(SplitCamel(a)[|SplitCamel(a)| - 1])
  {
    SplitConcat(a, b);
    SplitEnds(a);
    tail := Separator(a, "", b) + SplitCamel(b);
    Associate(SplitCamel(a), Separator(a, "", b), SplitCamel(b));
  }

  lemma WordsSplit(a: string, b: string)
    requires a != "" && Alnum(a[|a| - 1]) && b != ""
    ensures Words(a + b) == Words(a) + Collapse(Separator(a, "", b) + SplitCamel(b))
  {
    var tail := SplitAppend(a, b);
    WordsOf(a + b, SplitCamel(a), tail);
  }

  /** A solid text, a run of other characters, and another solid text. */
  lemma WordsJoin(a: string, gap: string, b: string)
    requires a != "" && Alnum(a[|a| - 1]) && NoAlnum(gap) && b != "" && Alnum(b[0])
    ensures Words(a + gap + b) == Words(a) + Separator(a, gap, b) + Words(b)
  {
    var separator := Separator(a, gap, b);
    Associate(Words(a), separator, Words(b));
    if gap == "" {
      assert a + gap + b == a + b;
      WordsSplit(a, b);
      SplitEnds(b);
      CollapseGap(separator, SplitCamel(b));
    } else {
      Associate(a, gap, b);
      WordsSplit(a, gap + b);
      WordsOfGap(gap, b);
      assert Separator(a, "", gap + b) + SplitCamel(gap + b) == SplitCamel(gap + b);
    }
  }

  /** A solid text with other characters behind it. */
  lemma WordsTail(a: string, gap: string)
    requires a != "" && Alnum(a[|a| - 1]) && NoAlnum(gap)
    ensures Words(a + gap) == Words(a) + if gap == "" then "" else "_"
  {
    if gap == "" {
      assert a + gap == a;
    } else {
      WordsSplit(a, gap);
      NothingToSplit(gap);
      CollapseGap(gap, "");
      assert Separator(a, "", gap) + SplitCamel(gap) == gap + "";
    }
  }

  lemma {:induction false} WordsEnds(a: string)
    requires Solid(a)
    ensures Solid(Words(a))
    decreases |a|
  {
    SplitEnds(a);
    var s := SplitCamel(a);
    CollapseCollapses(s);
    var head, last := s[..|s| - 1], [s[|s| - 1]];
    assert s == head + last;
    CollapseEnds(head, s[|s| - 1]);
  }

  lemma {:induction false} CollapseEnds(head: string, c: char)
    requires Alnum(c)
    ensures Collapse(head + [c]) != "" && Collapse(head + [c])[|Collapse(head + [c])| - 1] == c
    decreases |head|
  {
    var s := head + [c];
    if head != "" {
      assert s[1..] == head[1..] + [c];
      if Alnum(head[0]) {
        CollapseEnds(head[1..], c);
      } else {
        SkipConcat([c], "");
        SkipTail(head[1..], c);
        var k :| 0 <= k <= |head[1..]| && SkipOthers(head[1..] + [c]) == head[1..][k..] + [c];
        CollapseEnds(head[1..][k..], c);
      }
    }
  }

  lemma {:induction false} SkipTail(head: string, c: char)
    requires Alnum(c)
    ensures exists k :: 0 <= k <= |head| && SkipOthers(head + [c]) == head[k..] + [c]
  {
    if head == "" || Alnum(head[0]) {
      assert head[0..] == head;
      assert SkipOthers(head + [c]) == head[0..] + [c];
    } else {
      assert (head + [c])[1..] == head[1..] + [c];
      SkipTail(head[1..], c);
      var k :| 0 <= k <= |head[1..]| && SkipOthers(head[1..] + [c]) == head[1..][k..] + [c];
      assert head[1..][k..] == head[k + 1..];
      assert SkipOthers(head + [c]) == head[k + 1..] + [c];
    }
  }

  lemma {:induction false} TrimStartDrops(p: string, a: string)
    requires NoAlnum(p) && a != "" && Alnum(a[0])
    ensures exists k :: 0 <= k <= |p| && TrimStart(p + a) == p[k..] + a
  {
    if p == "" || !IsSpace(p[0]) {
      assert p[0..] == p;
      assert TrimStart(p + a) == p[0..] + a;
    } else {
      assert (p + a)[1..] == p[1..] + a;
      TrimStartDrops(p[1..], a);
      var k :| 0 <= k <= |p[1..]| && TrimStart(p[1..] + a) == p[1..][k..] + a;
      assert p[1..][k..] == p[k + 1..];
      assert TrimStart(p + a) == p[k + 1..] + a;
    }
  }

  lemma {:induction false} TrimEndDrops(a: string, q: string)
    requires NoAlnum(q) && a != "" && Alnum(a[|a| - 1])
    ensures exists k :: 0 <= k <= |q| && TrimEnd(a + q) == a + q[..k]
    decreases |q|
  {
    if q == "" || !IsSpace(q[|q| - 1]) {
      assert q[..|q|] == q;
      assert TrimEnd(a + q) == a + q[..|q|];
    } else {
      var n := |q| - 1;
      assert (a + q)[..|a + q| - 1] == a + q[..n];
      TrimEndDrops(a, q[..n]);
      var k :| 0 <= k <= |q[..n]| && TrimEnd(a + q[..n]) == a + q[..n][..k];
      assert q[..n][..k] == q[..k];
      assert TrimEnd(a + q) == a + q[..k];
    }
  }

  /** Stripping underscores around a solid text. */
  lemma StripAround(front: string, x: string, back: string)
    requires Solid(x) && front in ["", "_"] && back in ["", "_"]
    ensures StripEnd(StripStart(front + x + back)) == x
  {
    assert StripStart(front + x + back) == x + back by {
      if front == "" {
        assert front + x + back == x + back;
      } else {
        assert (front + x + back)[1..] == x + back;
        assert StripStart(x + back) == x + back;
      }
    }
    if back == "" {
      assert x + back == x;
    } else {
      assert (x + back)[..|x + back| - 1] == x;
      assert StripEnd(x) == x;
    }
  }

  lemma TrimAround(p: string, a: string, q: string) returns (front: string, back: string)
    requires NoAlnum(p) && Solid(a) && NoAlnum(q)
    ensures NoAlnum(front) && NoAlnum(back) && TrimEnd(TrimStart(p + a + q)) == front + a + back
  {
    Associate(p, a, q);
    TrimStartDrops(p, a + q);
    var i :| 0 <= i <= |p| && TrimStart(p + (a + q)) == p[i..] + (a + q);
    front := p[i..];
    Associate(front, a, q);
    TrimEndDrops(front + a, q);
    var j :| 0 <= j <= |q| && TrimEnd(front + a + q) == front + a + q[..j];
    back := q[..j];
  }

  lemma CoreAround(front: string, a: string, back: string)
    requires NoAlnum(front) && Solid(a) && NoAlnum(back)
    ensures StripEnd(StripStart(Words(front + a + back))) == Words(a)
  {
    Associate(front, a, back);
    WordsOfGap(front, a + back);
    WordsTail(a, back);
    WordsEnds(a);
    var f, b := if front == "" then "" else "_", if back == "" then "" else "_";
    Associate(f, Words(a), b);
    StripAround(f, Words(a), b);
  }

  /** Normalising a solid text with other characters around it. */
  lemma NormalizeAround(p: string, a: string, q: string)
    requires NoAlnum(p) && Solid(a) && NoAlnum(q)
    ensures NormalizeEntryName(p + a + q) == Lower(Words(a))
  {
    var front, back := TrimAround(p, a, q);
    CoreAround(front, a, back);
  }

  lemma NormalizeSolid(a: string)
    requires Solid(a)
    ensures NormalizeEntryName(a) == Lower(Words(a))
  {
    assert "" + a + "" == a;
    NormalizeAround("", a, "");
  }

  lemma LowerConcat(x: string, y: string, z: string)
    ensures Lower(x + y + z) == Lower(x) + Lower(y) + Lower(z)
  {
  }

  /**
   * The law of the underscores. What surrounds the first and last letter or digit is dropped, and
   * between two parts there is one underscore exactly when other characters separate them or a
   * capital follows a lower-case letter or digit.
   */
  lemma NormalizeJoins(p: string, a: string, gap: string, b: string, q: string)
    requires NoAlnum(p) && Solid(a) && NoAlnum(gap) && Solid(b) && NoAlnum(q)
    ensures NormalizeEntryName(p + a + gap + b + q) ==
            NormalizeEntryName(a) + Separator(a, gap, b) + NormalizeEntryName(b)
  {
    var whole := a + gap + b;
    assert p + a + gap + b + q == p + whole + q;
    assert whole[0] == a[0] && whole[|whole| - 1] == b[|b| - 1];
    NormalizeAround(p, whole, q);
    NormalizeSolid(a);
    NormalizeSolid(b);
    WordsJoin(a, gap, b);
    LowerConcat(Words(a), Separator(a, gap, b), Words(b));
    assert Lower(Separator(a, gap, b)) == Separator(a, gap, b);
  }


  // ----- The characters, one by one -----

  /** Which characters start, continue or separate words. */
  lemma ClassesAre(c: char)
    ensures Upper(c) <==> c in "ABCDEFGHIJKLMNOPQRSTUVWXYZ"
    ensures LowerOrDigit(c) <==> c in "abcdefghijklmnopqrstuvwxyz" || c in "0123456789"
    ensures Alnum(c) <==>
            c in "ABCDEFGHIJKLMNOPQRSTUVWXYZ" || c in "abcdefghijklmnopqrstuvwxyz" || c in "0123456789"
  {
    CapitalsAre(c);
    SmallLettersAre(c);
    DigitsAre(c);
  }

  /** What stands between two parts of a name. */
  lemma SeparatorMeans(a: string, gap: string, b: string)
    requires a != "" && b != ""
    ensures Separator(a, gap, b) ==
            if gap != "" then "_"
            else if (a[|a| - 1] in "abcdefghijklmnopqrstuvwxyz" || a[|a| - 1] in "0123456789")
                    && b[0] in "ABCDEFGHIJKLMNOPQRSTUVWXYZ" then "_"
            else ""
  {
    ClassesAre(a[|a| - 1]);
    ClassesAre(b[0]);
  }
}
