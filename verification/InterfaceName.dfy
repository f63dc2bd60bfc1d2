/**
 WireGuard interface names derived from peer names: every run of other characters becomes one dash.
 */
module InterfaceName {
  import opened Basics

  const MAX_LENGTH := 15

  predicate IsLower(c: char) { 'a' <= c <= 'z' || '0' <= c <= '9' }

  predicate IsAlphanumeric(c: char) { IsLower(c) || 'A' <= c <= 'Z' }

  /** Text that has been converted to lower case holds no upper-case ASCII letter. */
  predicate Lowered(s: string) { forall i :: 0 <= i < |s| ==> !('A' <= s[i] <= 'Z') }

  function Dashed(s: string): (d: string)
    ensures |d| == |s| && forall i :: 0 <= i < |s| ==> d[i] == if IsAlphanumeric(s[i]) then s[i] else '-'
  {
    seq(|s|, i requires 0 <= i < |s| => if IsAlphanumeric(s[i]) then s[i] else '-')
  }

  // ---- Reference: the words of a name, joined by single dashes

  /** The longest prefix without a dash. */
  function Word(d: string): (w: string)
    ensures w <= d && '-' !in w && (|w| < |d| ==> d[|w|] == '-')
  {
    if d == "" || d[0] == '-' then "" else [d[0]] + Word(d[1..])
  }

  /** The maximal runs of characters other than dashes. */
  function Words(d: string): (ws: seq<string>)
    ensures forall i :: 0 <= i < |ws| ==> ws[i] != "" && '-' !in ws[i]
    decreases |d|
  {
    if d == "" then []
    else if d[0] == '-' then Words(d[1..])
    else [Word(d)] + Words(d[|Word(d)|..])
  }

  function Join(ws: seq<string>): string {
    if ws == [] then "" else if |ws| == 1 then ws[0] else ws[0] + "-" + Join(ws[1..])
  }

  function Truncated(s: string): string { if |s| > MAX_LENGTH then s[..MAX_LENGTH] else s }

  /** The interface name of a peer, given its name in lower case. */
  function NameOf(lowered: string): string { Truncated("wg-" + Join(Words(Dashed(lowered)))) }

  // ---- What the program computes

  /** Runs of dashes collapsed to one dash; `prev` says whether a dash has just been written. */
  function Collapsed(d: string, prev: bool): string {
    if d == "" then ""
    else if d[0] == '-' then (if prev then "" else "-") + Collapsed(d[1..], true)
    else [d[0]] + Collapsed(d[1..], false)
  }

  function TrimStart(s: string): string { if s != "" && s[0] == '-' then TrimStart(s[1..]) else s }

  function TrimEnd(s: string): string { if s != "" && s[|s| - 1] == '-' then TrimEnd(s[..|s| - 1]) else s }

  method SanitizeInterfaceName(lowered: string) returns (name: string)
    ensures name == NameOf(lowered)
  {
    hide Dashed, Words, Join, TrimStart, TrimEnd;
    var sanitized := Dashed(lowered);
    var result := "";
    var prevDash := false;
    ghost var whole := Collapsed(sanitized, false);
    assert sanitized[0..] == sanitized;
    for i := 0 to |sanitized|
      invariant whole == result + Collapsed(sanitized[i..], prevDash)
    {
      var c := sanitized[i];
      CollapsedAt(sanitized, i, prevDash);
      if c == '-' {
        if !prevDash {
          result := result + [c];
        }
        prevDash := true;
      } else {
        result := result + [c];
        prevDash := false;
      }
    }
    assert sanitized[|sanitized|..] == "" && result == whole;
    CollapseJoinsWords(sanitized);
    var trimmed := TrimEnd(TrimStart(result));
    name := "wg-" + trimmed;
    if |name| > MAX_LENGTH {
      name := name[..MAX_LENGTH];
    }
  }

  lemma CollapsedAt(d: string, i: nat, prev: bool)
    requires i < |d|
    ensures forall r: string ::
              r + Collapsed(d[i..], prev)
              == if d[i] != '-' then r + [d[i]] + Collapsed(d[i + 1..], false)
                 else if prev then r + Collapsed(d[i + 1..], true)
                 else r + [d[i]] + Collapsed(d[i + 1..], true)
  {
  }

  // ---- Collapsing and trimming is joining words

  lemma FirstChar(d: string, prev: bool)
    requires d != "" && d[0] != '-'
    ensures Collapsed(d, prev) == [d[0]] + Collapsed(d[1..], false)
    ensures Word(d) == [d[0]] + Word(d[1..]) && d[|Word(d)|..] == d[1..][|Word(d[1..])|..]
  {
  }

  /** A word passes through unchanged. */
  lemma {:induction false} CollapseWord(d: string, prev: bool)
    requires d != "" && d[0] != '-'
    ensures Collapsed(d, prev) == Word(d) + Collapsed(d[|Word(d)|..], false)
    decreases |d|
  {
    FirstChar(d, prev);
    var tail := d[1..];
    NoWord(tail);
    if tail != "" && tail[0] != '-' {
      hide Collapsed, Word;
      CollapseWord(tail, false);
      Glue([d[0]], Word(tail), Collapsed(tail[|Word(tail)|..], false));
    }
  }

  lemma NoWord(d: string)
    ensures d == "" || d[0] == '-' ==> Word(d) == "" && d[|Word(d)|..] == d
  {
  }

  /** The collapsed text is the joined words, perhaps with a dash in front and a dash behind. */
  function Edge(d: string): string { if d != "" && d[0] == '-' then "-" else "" }

  function BackEdge(d: string): string { if d != "" && d[|d| - 1] == '-' then "-" else "" }

  lemma {:induction false} CollapsedShape(d: string, prev: bool)
    requires Words(d) != []
    ensures Collapsed(d, prev) == (if prev then "" else Edge(d)) + Join(Words(d)) + BackEdge(d)
    decreases |d|
  {
    if d[0] == '-' {
      CollapsedShape(d[1..], true);
      AfterDash(d, prev);
      Prepend(if prev then "" else "-", Join(Words(d)), BackEdge(d));
    } else {
      var w := Word(d);
      var rest := d[|w|..];
      CollapseWord(d, prev);
      WordsStart(d);
      hide Collapsed, Word, Words;
      if rest == "" || Words(rest) == [] {
        OnlyDashes(rest, false);
        if rest == "" {
          assert d == w;
        } else {
          LastIsDash(rest);
          assert d[|d| - 1] == rest[|rest| - 1];
        }
        assert Join([w] + []) == w && "" + w == w;
      } else {
        CollapsedShape(rest, false);
        assert d[|d| - 1] == rest[|rest| - 1];
        assert ([w] + Words(rest))[1..] == Words(rest);
        JoinCons(w, Words(rest), BackEdge(d));
      }
    }
  }

  lemma AfterDash(d: string, prev: bool)
    requires d != "" && d[0] == '-' && Words(d) != []
    ensures Words(d) == Words(d[1..]) && Collapsed(d, prev) == (if prev then "" else "-") + Collapsed(d[1..], true)
    ensures |d| > 1 && BackEdge(d[1..]) == BackEdge(d) && Edge(d) == "-"
  {
  }

  lemma Prepend(front: string, j: string, back: string)
    ensures front + ("" + j + back) == front + j + back
  {
  }

  lemma WordsStart(d: string)
    requires d != "" && d[0] != '-'
    ensures var rest := d[|Word(d)|..];
            && Words(d) == [Word(d)] + Words(rest) && (rest == "" ==> Words(rest) == [] && Collapsed(rest, false) == "")
            && (rest != "" ==> rest[0] == '-') && d == Word(d) + rest
  {
  }

  lemma JoinCons(w: string, ws: seq<string>, back: string)
    requires ws != []
    ensures "" + Join([w] + ws) + back == w + ("-" + Join(ws) + back)
  {
  }

  lemma {:induction false} OnlyDashes(d: string, prev: bool)
    requires Words(d) == []
    ensures Collapsed(d, prev) == if d == "" || prev then "" else "-"
    decreases |d|
  {
    if d != "" {
      OnlyDashes(d[1..], true);
    }
  }

  lemma {:induction false} LastIsDash(d: string)
    requires Words(d) == [] && d != ""
    ensures d[|d| - 1] == '-'
    decreases |d|
  {
    if |d| > 1 {
      LastIsDash(d[1..]);
    }
  }

  /** Joined words begin and end with a character of a word. */
  lemma {:induction false} JoinEdges(ws: seq<string>)
    requires ws != [] && forall i :: 0 <= i < |ws| ==> ws[i] != "" && '-' !in ws[i]
    ensures Join(ws) != "" && Join(ws)[0] != '-' && Join(ws)[|Join(ws)| - 1] != '-'
  {
    if |ws| > 1 {
      JoinEdges(ws[1..]);
    }
  }

  lemma TrimsEdges(front: string, j: string, back: string)
    requires j != "" && j[0] != '-' && j[|j| - 1] != '-'
    requires (front == "" || front == "-") && (back == "" || back == "-")
    ensures TrimEnd(TrimStart(front + j + back)) == j
  {
  }

  lemma CollapseJoinsWords(d: string)
    ensures TrimEnd(TrimStart(Collapsed(d, false))) == Join(Words(d))
  {
    if Words(d) == [] {
      OnlyDashes(d, false);
      assert "-"[1..] == "" && TrimStart("") == "" && TrimEnd("") == "";
    } else {
      hide Collapsed, Words, Join, TrimStart, TrimEnd;
      CollapsedShape(d, false);
      JoinEdges(Words(d));
      TrimsEdges(Edge(d), Join(Words(d)), BackEdge(d));
    }
  }

  // ---- Every name is a valid one

  predicate InterfaceChars(s: string) { forall i :: 0 <= i < |s| ==> IsLower(s[i]) || s[i] == '-' }

  predicate NoDoubleDash(s: string) { forall i :: 0 <= i < |s| - 1 ==> s[i] != '-' || s[i + 1] != '-' }

  /** The program's own check of interface names. */
  predicate ValidInterfaceName(s: string) {
    s != "" && (forall i :: 0 <= i < |s| ==> IsAlphanumeric(s[i]) || s[i] == '-' || s[i] == '_') && |s| <= MAX_LENGTH
  }

  lemma {:induction false} WordsFromText(d: string)
    requires InterfaceChars(d)
    ensures forall i :: 0 <= i < |Words(d)| ==> InterfaceChars(Words(d)[i])
    decreases |d|
  {
    if d != "" {
      if d[0] == '-' {
        WordsFromText(d[1..]);
      } else {
        WordsFromText(d[|Word(d)|..]);
      }
    }
  }

  lemma {:induction false} JoinIsClean(ws: seq<string>)
    requires forall i :: 0 <= i < |ws| ==> ws[i] != "" && '-' !in ws[i] && InterfaceChars(ws[i])
    ensures InterfaceChars(Join(ws)) && NoDoubleDash(Join(ws)) && (Join(ws) == "" || Join(ws)[0] != '-')
  {
    if |ws| == 1 {
      NoDashInWord(ws[0]);
    } else if |ws| > 1 {
      JoinIsClean(ws[1..]);
      JoinEdges(ws[1..]);
      NoDashInWord(ws[0]);
      var w, rest := ws[0], Join(ws[1..]);
      var j := w + "-" + rest;
      forall i | 0 <= i < |j| - 1 ensures j[i] != '-' || j[i + 1] != '-' {
        if i > |w| {
          assert j[i] == rest[i - |w| - 1] && j[i + 1] == rest[i - |w|];
        }
      }
    }
  }

  lemma NoDashInWord(w: string)
    requires '-' !in w
    ensures NoDoubleDash(w) && (w != "" ==> w[0] != '-')
  {
  }

  /** For every peer name: the prefix, the length, the alphabet, single dashes, and acceptance by the check. */
  lemma NamesAreValid(lowered: string)
    requires Lowered(lowered)
    ensures var name := NameOf(lowered);
            && "wg-" <= name && |name| <= MAX_LENGTH
            && InterfaceChars(name) && NoDoubleDash(name) && ValidInterfaceName(name)
  {
    var d := Dashed(lowered);
    WordsFromText(d);
    JoinIsClean(Words(d));
    var j := Join(Words(d));
    var full := "wg-" + j;
    forall i | 0 <= i < |full| ensures IsLower(full[i]) || full[i] == '-' {
      assert i >= 3 ==> full[i] == j[i - 3];
    }
    forall i | 0 <= i < |full| - 1 ensures full[i] != '-' || full[i + 1] != '-' {
      assert i >= 2 ==> full[i + 1] == j[i - 2];
      assert i >= 3 ==> full[i] == j[i - 3];
    }
  }

  // ---- Which characters survive

  predicate Survives(c: char) { 'a' <= c <= 'z' || '0' <= c <= '9' || 'A' <= c <= 'Z' }

  predicate AllSurvive(s: string) { forall i :: 0 <= i < |s| ==> Survives(s[i]) }

  predicate NoneSurvives(s: string) { forall i :: 0 <= i < |s| ==> !Survives(s[i]) }

  function WordsOf(text: string): seq<string> { Words(Dashed(text)) }

  lemma DashedSplits(a: string, b: string)
    ensures Dashed(a + b) == Dashed(a) + Dashed(b)
  {
  }

  lemma DashedWord(w: string)
    requires AllSurvive(w)
    ensures Dashed(w) == w && '-' !in w
  {
  }

  /** A run of letters and digits is a word, up to the next other character. */
  lemma WordComesFirst(w: string, rest: string)
    requires w != "" && AllSurvive(w) && (rest == "" || !Survives(rest[0]))
    ensures WordsOf(w + rest) == [w] + WordsOf(rest)
  {
    DashedSplits(w, rest);
    DashedWord(w);
    var d := Dashed(rest);
    assert d == "" || d[0] == '-';
    WordIs(w, d);
    assert (w + d)[|w|..] == d;
  }

  lemma {:induction false} WordIs(w: string, d: string)
    requires '-' !in w && (d == "" || d[0] == '-')
    ensures Word(w + d) == w
  {
    if w != "" {
      assert (w + d)[1..] == w[1..] + d;
      WordIs(w[1..], d);
    } else {
      assert w + d == d;
    }
  }

  /** Other characters in front of a word, however many, are skipped. */
  lemma {:induction false} GapIsSkipped(gap: string, rest: string)
    requires NoneSurvives(gap)
    ensures WordsOf(gap + rest) == WordsOf(rest)
  {
    if gap == "" {
      assert gap + rest == rest;
    } else {
      GapIsSkipped(gap[1..], rest);
      assert (gap + rest)[1..] == gap[1..] + rest;
      assert Dashed(gap + rest)[1..] == Dashed(gap[1..] + rest);
      assert Dashed(gap + rest)[0] == '-';
    }
  }

  /** The name is "wg-", the words with one dash between any two, and nothing behind the fifteenth character. */
  lemma NameFromWords(w: string, gap: string, rest: string)
    requires w != "" && AllSurvive(w) && gap != "" && NoneSurvives(gap)
    ensures WordsOf(w + gap + rest) == [w] + WordsOf(rest) && WordsOf("") == []
    ensures Join([w] + WordsOf(rest)) == if WordsOf(rest) == [] then w else w + ("-" + Join(WordsOf(rest)))
  {
    assert w + gap + rest == w + (gap + rest);
    WordComesFirst(w, gap + rest);
    GapIsSkipped(gap, rest);
    var ws := WordsOf(rest);
    if ws == [] {
      assert [w] + ws == [w];
    } else {
      assert ([w] + ws)[1..] == ws;
    }
  }

  lemma NameIsCut(lowered: string)
    ensures var full := "wg-" + Join(WordsOf(lowered));
            NameOf(lowered) == if |full| > 15 then full[..15] else full
  {
  }

  /** The program's check accepts exactly the names of 1 to 15 letters, digits, dashes and underscores. */
  lemma AcceptsExactly(s: string)
    ensures ValidInterfaceName(s)
            <==> 1 <= |s| <= 15 && forall i :: 0 <= i < |s| ==> Survives(s[i]) || s[i] == '-' || s[i] == '_'
  {
  }
}
