/**
 * The HTML the view is given: escaping of titles, the list-item markup of a
 * task, the counter text and the clear-completed label.
 */
module Template {
  import opened Todos
  import opened Strings
  import opened Storage
  import opened TodoModel

  // ---------------------------------------------------------------------------
  // Escaping
  // ---------------------------------------------------------------------------

  /** The characters of the htmlEscapes table. */
  predicate IsSpecial(c: char) {
    c == '&' || c == '<' || c == '>' || c == '"' || c == '\'' || c == '`'
  }

  /** The characters that could open or close markup or an attribute. */
  predicate IsMarkup(c: char) {
    IsSpecial(c) && c != '&'
  }

  /** The htmlEscapes entry of a special character; other characters stand for themselves. */
  function EscapeChar(c: char): string {
    if c == '&' then "&amp;"
    else if c == '<' then "&lt;"
    else if c == '>' then "&gt;"
    else if c == '"' then "&quot;"
    else if c == '\'' then "&#x27;"
    else if c == '`' then "&#x60;"
    else [c]
  }

  /** string.replace(reUnescapedHtml, escapeHtmlChar): every special character replaced by its entity. */
  function ReplaceEach(s: string): string {
    if s == [] then [] else EscapeChar(s[0]) + ReplaceEach(s[1..])
  }

  predicate HasSpecial(s: string) {
    exists k :: 0 <= k < |s| && IsSpecial(s[k])
  }

  /** escape: the replacement is only run on a non-empty string that has a special character. */
  function Escape(s: string): string {
    if s != [] && HasSpecial(s) then ReplaceEach(s) else s
  }

  lemma {:induction false} ReplaceEachPlain(s: string)
    requires !HasSpecial(s)
    ensures ReplaceEach(s) == s
  {
    if s != [] {
      assert !HasSpecial(s[1..]) by {
        forall k | 0 <= k < |s[1..]| ensures !IsSpecial(s[1..][k]) {
          assert s[1..][k] == s[k + 1];
        }
      }
      ReplaceEachPlain(s[1..]);
    }
  }

  /** The guard in escape is only a shortcut: escape always equals the replacement. */
  lemma EscapeIsReplaceEach(s: string)
    ensures Escape(s) == ReplaceEach(s)
  {
    if !(s != [] && HasSpecial(s)) {
      ReplaceEachPlain(s);
    }
  }

  lemma {:induction false} ReplaceEachAppend(a: string, b: string)
    ensures ReplaceEach(a + b) == ReplaceEach(a) + ReplaceEach(b)
  {
    if a == [] {
      assert a + b == b;
    } else {
      assert (a + b)[1..] == a[1..] + b;
      ReplaceEachAppend(a[1..], b);
    }
  }

  /** Escaping lengthens the text by at least one character for each special character. */
  lemma {:induction false} ReplaceEachGrows(s: string)
    ensures |ReplaceEach(s)| >= |s|
    ensures HasSpecial(s) ==> |ReplaceEach(s)| > |s|
  {
    if s != [] {
      ReplaceEachGrows(s[1..]);
      if HasSpecial(s) && !IsSpecial(s[0]) {
        var k :| 0 <= k < |s| && IsSpecial(s[k]);
        assert IsSpecial(s[1..][k - 1]);
      }
    }
  }

  /** escape leaves a title unchanged exactly when it has no special character. */
  lemma EscapeUnchangedIff(s: string)
    ensures Escape(s) == s <==> !HasSpecial(s)
  {
    EscapeIsReplaceEach(s);
    ReplaceEachGrows(s);
    if !HasSpecial(s) {
      ReplaceEachPlain(s);
    }
  }

  /** Escaped text cannot open a tag, close an attribute value or start a template literal. */
  lemma {:induction false} ReplaceEachSafe(s: string)
    ensures forall k :: 0 <= k < |ReplaceEach(s)| ==> !IsMarkup(ReplaceEach(s)[k])
  {
    if s != [] {
      ReplaceEachSafe(s[1..]);
      var e := EscapeChar(s[0]);
      var r := ReplaceEach(s);
      forall k | 0 <= k < |r| ensures !IsMarkup(r[k]) {
        if k >= |e| {
          assert r[k] == ReplaceEach(s[1..])[k - |e|];
        }
      }
    }
  }

  lemma EscapeSafe(s: string)
    ensures forall k :: 0 <= k < |Escape(s)| ==> !IsMarkup(Escape(s)[k])
  {
    EscapeIsReplaceEach(s);
    ReplaceEachSafe(s);
  }

  predicate HasPrefix(s: string, p: string) {
    |p| <= |s| && s[..|p|] == p
  }

  /** The decoding a browser applies to the six entities escape produces. */
  function Unescape(s: string): string
    decreases |s|
  {
    if s == [] then []
    else if HasPrefix(s, "&amp;") then "&" + Unescape(s[5..])
    else if HasPrefix(s, "&lt;") then "<" + Unescape(s[4..])
    else if HasPrefix(s, "&gt;") then ">" + Unescape(s[4..])
    else if HasPrefix(s, "&quot;") then "\"" + Unescape(s[6..])
    else if HasPrefix(s, "&#x27;") then "'" + Unescape(s[6..])
    else if HasPrefix(s, "&#x60;") then "`" + Unescape(s[6..])
    else [s[0]] + Unescape(s[1..])
  }

  lemma UnescapePlain(c: char, rest: string)
    requires c != '&'
    ensures Unescape([c] + rest) == [c] + Unescape(rest)
  {
    var s := [c] + rest;
    assert s[1..] == rest;
    assert !HasPrefix(s, "&amp;") && !HasPrefix(s, "&lt;") && !HasPrefix(s, "&gt;") by {
      assert s[0] == c;
    }
    assert !HasPrefix(s, "&quot;") && !HasPrefix(s, "&#x27;") && !HasPrefix(s, "&#x60;") by {
      assert s[0] == c;
    }
  }

  lemma UnescapeEntity(e: string, c: char, rest: string)
    requires IsSpecial(c) && e == EscapeChar(c)
    ensures Unescape(e + rest) == [c] + Unescape(rest)
  {
    var s := e + rest;
    assert s[..|e|] == e && s[|e|..] == rest;
    if c == '&' {
      assert HasPrefix(s, "&amp;");
    } else if c == '<' {
      assert s[1] == 'l';
      assert HasPrefix(s, "&lt;");
    } else if c == '>' {
      assert s[1] == 'g';
      assert HasPrefix(s, "&gt;");
    } else if c == '"' {
      assert s[1] == 'q';
      assert HasPrefix(s, "&quot;");
    } else if c == '\'' {
      assert s[1] == '#' && s[3] == '2';
      assert HasPrefix(s, "&#x27;");
    } else {
      assert s[1] == '#' && s[3] == '6';
      assert HasPrefix(s, "&#x60;");
    }
  }

  lemma {:induction false} UnescapeReplaceEach(s: string)
    ensures Unescape(ReplaceEach(s)) == s
  {
    if s != [] {
      UnescapeReplaceEach(s[1..]);
      if IsSpecial(s[0]) {
        UnescapeEntity(EscapeChar(s[0]), s[0], ReplaceEach(s[1..]));
      } else {
        UnescapePlain(s[0], ReplaceEach(s[1..]));
      }
      assert [s[0]] + s[1..] == s;
    }
  }

  /** The page shows the title exactly as typed: decoding the escaped text gives it back. */
  lemma UnescapeEscape(s: string)
    ensures Unescape(Escape(s)) == s
  {
    EscapeIsReplaceEach(s);
    UnescapeReplaceEach(s);
  }

  lemma {:induction false} ReplaceEachNoDollar(s: string)
    requires '$' !in s
    ensures '$' !in ReplaceEach(s)
  {
    if s != [] {
      assert s[0] != '$' && '$' !in s[1..];
      ReplaceEachNoDollar(s[1..]);
    }
  }

  // ---------------------------------------------------------------------------
  // String.prototype.replace with a string pattern
  // ---------------------------------------------------------------------------

  predicate OccursAt(s: string, pat: string, j: int) {
    0 <= j && j + |pat| <= |s| && s[j..j + |pat|] == pat
  }

  /** The first position at or after `i` where `pat` occurs. */
  function IndexOfFrom(s: string, pat: string, i: nat): (r: Option<nat>)
    ensures r.Some? ==> i <= r.value && OccursAt(s, pat, r.value)
    ensures r.Some? ==> forall j :: i <= j < r.value ==> !OccursAt(s, pat, j)
    ensures r.None? ==> forall j :: i <= j ==> !OccursAt(s, pat, j)
    decreases |s| - i
  {
    if i + |pat| > |s| then None
    else if s[i..i + |pat|] == pat then Some(i)
    else IndexOfFrom(s, pat, i + 1)
  }

  function IndexOf(s: string, pat: string): Option<nat> {
    IndexOfFrom(s, pat, 0)
  }

  /**
   * The GetSubstitution operation of ECMAScript for a match without capture
   * groups: `$$` is a dollar sign, `$&` the match, `` $` `` the text before it,
   * `$'` the text after it, and any other `$` stands for itself.
   */
  function GetSubstitution(matched: string, str: string, position: nat, replacement: string): string
    requires position + |matched| <= |str|
  {
    if replacement == [] then []
    else if replacement[0] == '$' && |replacement| >= 2 then
      var c := replacement[1];
      if c == '$' then "$" + GetSubstitution(matched, str, position, replacement[2..])
      else if c == '&' then matched + GetSubstitution(matched, str, position, replacement[2..])
      else if c == '`' then str[..position] + GetSubstitution(matched, str, position, replacement[2..])
      else if c == '\'' then str[position + |matched|..] + GetSubstitution(matched, str, position, replacement[2..])
      else "$" + GetSubstitution(matched, str, position, replacement[1..])
    else [replacement[0]] + GetSubstitution(matched, str, position, replacement[1..])
  }

  /** A replacement without a dollar sign is inserted as it is. */
  lemma {:induction false} GetSubstitutionPlain(matched: string, str: string, position: nat, replacement: string)
    requires position + |matched| <= |str| && '$' !in replacement
    ensures GetSubstitution(matched, str, position, replacement) == replacement
  {
    if replacement != [] {
      assert replacement[0] != '$' && '$' !in replacement[1..];
      GetSubstitutionPlain(matched, str, position, replacement[1..]);
    }
  }

  /** s.replace(pat, rep) for string arguments: the first occurrence only, with `$`-patterns expanded. */
  function ReplaceFirst(s: string, pat: string, rep: string): string {
    match IndexOf(s, pat)
    case None => s
    case Some(i) => s[..i] + GetSubstitution(pat, s, i, rep) + s[i + |pat|..]
  }

  /** The first occurrence replaced by `rep` verbatim. */
  function ReplaceFirstLiteral(s: string, pat: string, rep: string): string {
    match IndexOf(s, pat)
    case None => s
    case Some(i) => s[..i] + rep + s[i + |pat|..]
  }

  /** Where `pat` is known to occur first, both replacements act there. */
  lemma ReplaceAt(a: string, pat: string, b: string, rep: string)
    requires forall j :: 0 <= j < |a| ==> !OccursAt(a + pat + b, pat, j)
    ensures ReplaceFirstLiteral(a + pat + b, pat, rep) == a + rep + b
    ensures ReplaceFirst(a + pat + b, pat, rep) == a + GetSubstitution(pat, a + pat + b, |a|, rep) + b
  {
    var s := a + pat + b;
    assert s[|a|..|a| + |pat|] == pat;
    assert OccursAt(s, pat, |a|);
    assert IndexOf(s, pat) == Some(|a|);
    assert s[..|a|] == a && s[|a| + |pat|..] == b;
  }

  /** An occurrence fixes the characters it covers. */
  lemma OccursChars(s: string, pat: string, j: int)
    ensures OccursAt(s, pat, j) ==> forall k :: 0 <= k < |pat| ==> s[j + k] == pat[k]
  {
    if OccursAt(s, pat, j) {
      forall k | 0 <= k < |pat| ensures s[j + k] == pat[k] {
        assert s[j..j + |pat|][k] == s[j + k];
      }
    }
  }

  /** A pattern that starts with '{' cannot occur inside a prefix that has no '{'. */
  lemma BraceFreePrefix(a: string, pat: string, b: string)
    requires pat != [] && pat[0] == '{' && '{' !in a
    ensures forall j :: 0 <= j < |a| ==> !OccursAt(a + pat + b, pat, j)
  {
    var s := a + pat + b;
    forall j | 0 <= j < |a| ensures !OccursAt(s, pat, j) {
      assert s[j] == a[j] && a[j] in a;
      OccursChars(s, pat, j);
    }
  }

  // ---------------------------------------------------------------------------
  // The list-item template
  // ---------------------------------------------------------------------------

  const IdSlot: string := "{{id}}"
  const CompletedSlot: string := "{{completed}}"
  const CheckedSlot: string := "{{checked}}"
  const TitleSlot: string := "{{title}}"

  const Head: string := "<li data-id=\""
  const AfterId: string := "\" class=\""
  const AfterCompleted: string := "\"><div class=\"view\">" + "<input class=\"toggle\" type=\"checkbox\" "
  const AfterChecked: string := "><label>"
  const Tail: string := "</label><button class=\"destroy\"></button></div></li>"

  /** A template laid out as defaultTemplate is: the four placeholders between five fixed texts. */
  function Layout(h: string, ai: string, ac: string, ak: string, t: string): string {
    h + IdSlot + ai + CompletedSlot + ac + CheckedSlot + ak + TitleSlot + t
  }

  /** defaultTemplate. */
  const DefaultTemplate: string := Layout(Head, AfterId, AfterCompleted, AfterChecked, Tail)

  function CompletedClass(t: Todo): string {
    if t.completed then "completed" else ""
  }

  function CheckedAttr(t: Todo): string {
    if t.completed then "checked" else ""
  }

  /** The list item as the four replace calls of show compute it. */
  function FragmentAsWritten(t: Todo): string {
    var s1 := ReplaceFirst(DefaultTemplate, IdSlot, IntToDecimal(t.id));
    var s2 := ReplaceFirst(s1, TitleSlot, Escape(t.title));
    var s3 := ReplaceFirst(s2, CompletedSlot, CompletedClass(t));
    ReplaceFirst(s3, CheckedSlot, CheckedAttr(t))
  }

  /** The list item with every value inserted verbatim, as a replacer function would insert it. */
  function FragmentVerbatim(t: Todo): string {
    var s1 := ReplaceFirstLiteral(DefaultTemplate, IdSlot, IntToDecimal(t.id));
    var s2 := ReplaceFirstLiteral(s1, TitleSlot, Escape(t.title));
    var s3 := ReplaceFirstLiteral(s2, CompletedSlot, CompletedClass(t));
    ReplaceFirstLiteral(s3, CheckedSlot, CheckedAttr(t))
  }

  /** The markup of a task in front of its label text; it does not depend on the title. */
  function LabelPrefix(id: string, completed: bool): string {
    Head + id + AfterId + (if completed then "completed" else "") + AfterCompleted +
    (if completed then "checked" else "") + AfterChecked
  }

  /** The list item of a task: the markup around its escaped title. */
  function Fragment(t: Todo): string {
    LabelPrefix(IntToDecimal(t.id), t.completed) + Escape(t.title) + Tail
  }

  lemma {:induction false} DecimalPlain(i: int)
    ensures '{' !in IntToDecimal(i) && '$' !in IntToDecimal(i)
  {
    var d := if i < 0 then NatToDecimal(-i) else NatToDecimal(i);
    assert forall k :: 0 <= k < |d| ==> IsDigit(d[k]);
    assert '{' !in d && '$' !in d;
  }

  /** No `{{t` anywhere in `x`. */
  predicate NoOpenTitle(x: string) {
    forall j :: 0 <= j && j + 2 < |x| ==> !(x[j] == '{' && x[j + 1] == '{' && x[j + 2] == 't')
  }

  lemma NoOpenTitleConcat(x: string, y: string)
    requires NoOpenTitle(x) && NoOpenTitle(y)
    requires x == [] || x[|x| - 1] != '{'
    ensures NoOpenTitle(x + y)
  {
    var s := x + y;
    forall j | 0 <= j && j + 2 < |s| ensures !(s[j] == '{' && s[j + 1] == '{' && s[j + 2] == 't') {
      if j + 2 < |x| {
        assert s[j] == x[j] && s[j + 1] == x[j + 1] && s[j + 2] == x[j + 2];
      } else if j >= |x| {
        assert s[j] == y[j - |x|] && s[j + 1] == y[j - |x| + 1] && s[j + 2] == y[j - |x| + 2];
      } else if j == |x| - 1 {
        assert s[j] == x[|x| - 1];
      } else {
        assert s[j + 1] == x[|x| - 1];
      }
    }
  }

  lemma BraceFreeNoOpenTitle(x: string)
    requires '{' !in x
    ensures NoOpenTitle(x)
    ensures x == [] || x[|x| - 1] != '{'
  {
    forall j | 0 <= j && j + 2 < |x| ensures x[j] != '{' {
      assert x[j] in x;
    }
    if x != [] {
      assert x[|x| - 1] in x;
    }
  }

  /** The other placeholders open with `{{c`, never `{{t`. */
  lemma SlotsNoOpenTitle()
    ensures NoOpenTitle(CompletedSlot) && NoOpenTitle(CheckedSlot) && NoOpenTitle("{{")
    ensures CompletedSlot[|CompletedSlot| - 1] == '}' && CheckedSlot[|CheckedSlot| - 1] == '}'
  {
    assert CompletedSlot == "{{c" + "ompleted}}";
    assert CheckedSlot == "{{c" + "hecked}}";
    assert NoOpenTitle("{{c");
    BraceFreeNoOpenTitle("ompleted}}");
    BraceFreeNoOpenTitle("hecked}}");
    NoOpenTitleConcat("{{c", "ompleted}}");
    NoOpenTitleConcat("{{c", "hecked}}");
  }

  /** The title placeholder does not occur in front of a prefix free of `{{t`. */
  lemma TitleSlotFirst(a: string, b: string)
    requires NoOpenTitle(a + "{{")
    ensures forall j :: 0 <= j < |a| ==> !OccursAt(a + TitleSlot + b, TitleSlot, j)
  {
    var s := a + TitleSlot + b;
    var a' := a + "{{";
    forall j | 0 <= j < |a| ensures !OccursAt(s, TitleSlot, j) {
      assert a'[j] == s[j] && a'[j + 1] == s[j + 1] && a'[j + 2] == s[j + 2];
      OccursChars(s, TitleSlot, j);
    }
  }

  /** The fixed texts a layout can have for the four replace calls to hit their own placeholder. */
  predicate PlainTexts(h: string, ai: string, ac: string, ak: string) {
    '{' !in h && '{' !in ai && '{' !in ac && '{' !in ak
  }

  lemma DefaultTemplatePlain()
    ensures PlainTexts(Head, AfterId, AfterCompleted, AfterChecked)
  {
    assert '{' !in "\"><div class=\"view\">";
    assert '{' !in "<input class=\"toggle\" type=\"checkbox\" ";
  }

  /** In front of the title placeholder, once the id is filled in, there is no `{{t`. */
  lemma BeforeTitleNoOpen(h: string, ai: string, ac: string, ak: string, id: string)
    requires PlainTexts(h, ai, ac, ak) && '{' !in id
    ensures NoOpenTitle(h + id + ai + CompletedSlot + ac + CheckedSlot + ak + "{{")
  {
    var x1 := h + id + ai;
    var x2 := x1 + CompletedSlot;
    var x3 := x2 + ac;
    var x4 := x3 + CheckedSlot;
    var x5 := x4 + ak;
    SlotsNoOpenTitle();
    BraceFreeNoOpenTitle(x1);
    BraceFreeNoOpenTitle(ac);
    BraceFreeNoOpenTitle(ak);
    NoOpenTitleConcat(x1, CompletedSlot);
    assert x2[|x2| - 1] == '}';
    NoOpenTitleConcat(x2, ac);
    if ac == [] {
      assert x3 == x2;
    } else {
      assert x3[|x3| - 1] == ac[|ac| - 1];
    }
    NoOpenTitleConcat(x3, CheckedSlot);
    assert x4[|x4| - 1] == '}';
    NoOpenTitleConcat(x4, ak);
    if ak == [] {
      assert x5 == x4;
    } else {
      assert x5[|x5| - 1] == ak[|ak| - 1];
    }
    NoOpenTitleConcat(x5, "{{");
  }

  lemma RegroupAfterId(h: string, v: string, ai: string, ac: string, ak: string, t: string)
    ensures h + v + ai + CompletedSlot + ac + CheckedSlot + ak + TitleSlot + t ==
      h + v + (ai + CompletedSlot + ac + CheckedSlot + ak + TitleSlot + t)
  {
  }

  /** Replacing the id placeholder. */
  lemma IdStep(h: string, ai: string, ac: string, ak: string, t: string, id: string)
    requires PlainTexts(h, ai, ac, ak) && '$' !in id
    ensures var s1 := h + id + ai + CompletedSlot + ac + CheckedSlot + ak + TitleSlot + t;
      ReplaceFirst(Layout(h, ai, ac, ak, t), IdSlot, id) == s1 &&
      ReplaceFirstLiteral(Layout(h, ai, ac, ak, t), IdSlot, id) == s1
  {
    var r := ai + CompletedSlot + ac + CheckedSlot + ak + TitleSlot + t;
    RegroupAfterId(h, IdSlot, ai, ac, ak, t);
    RegroupAfterId(h, id, ai, ac, ak, t);
    BraceFreePrefix(h, IdSlot, r);
    ReplaceAt(h, IdSlot, r, id);
    GetSubstitutionPlain(IdSlot, h + IdSlot + r, |h|, id);
  }

  /** Replacing the title placeholder: it is the text `x` that ends up in its place. */
  lemma TitleStep(h: string, ai: string, ac: string, ak: string, t: string, id: string, x: string)
    requires PlainTexts(h, ai, ac, ak) && '{' !in id
    ensures var a := h + id + ai + CompletedSlot + ac + CheckedSlot + ak;
      ReplaceFirstLiteral(a + TitleSlot + t, TitleSlot, x) == a + x + t &&
      ReplaceFirst(a + TitleSlot + t, TitleSlot, x) == a + GetSubstitution(TitleSlot, a + TitleSlot + t, |a|, x) + t
  {
    var a := h + id + ai + CompletedSlot + ac + CheckedSlot + ak;
    BeforeTitleNoOpen(h, ai, ac, ak, id);
    TitleSlotFirst(a, t);
    ReplaceAt(a, TitleSlot, t, x);
  }

  /** Replacing the class placeholder. */
  lemma CompletedStep(h: string, ai: string, ac: string, ak: string, t: string, id: string, x: string, c: string)
    requires PlainTexts(h, ai, ac, ak) && '{' !in id && '$' !in c
    ensures var s2 := h + id + ai + CompletedSlot + ac + CheckedSlot + ak + x + t;
      var s3 := h + id + ai + c + ac + CheckedSlot + ak + x + t;
      ReplaceFirst(s2, CompletedSlot, c) == s3 && ReplaceFirstLiteral(s2, CompletedSlot, c) == s3
  {
    var a := h + id + ai;
    var b := ac + CheckedSlot + ak + x + t;
    assert h + id + ai + CompletedSlot + ac + CheckedSlot + ak + x + t == a + CompletedSlot + b;
    assert h + id + ai + c + ac + CheckedSlot + ak + x + t == a + c + b;
    BraceFreePrefix(a, CompletedSlot, b);
    ReplaceAt(a, CompletedSlot, b, c);
    GetSubstitutionPlain(CompletedSlot, a + CompletedSlot + b, |a|, c);
  }

  /** Replacing the checkbox placeholder. */
  lemma CheckedStep(h: string, ai: string, ac: string, ak: string, t: string, id: string, x: string, c: string, k: string)
    requires PlainTexts(h, ai, ac, ak) && '{' !in id && '{' !in c && '$' !in k
    ensures var s3 := h + id + ai + c + ac + CheckedSlot + ak + x + t;
      var s4 := h + id + ai + c + ac + k + ak + x + t;
      ReplaceFirst(s3, CheckedSlot, k) == s4 && ReplaceFirstLiteral(s3, CheckedSlot, k) == s4
  {
    var a := h + id + ai + c + ac;
    var b := ak + x + t;
    assert h + id + ai + c + ac + CheckedSlot + ak + x + t == a + CheckedSlot + b;
    assert h + id + ai + c + ac + k + ak + x + t == a + k + b;
    BraceFreePrefix(a, CheckedSlot, b);
    ReplaceAt(a, CheckedSlot, b, k);
    GetSubstitutionPlain(CheckedSlot, a + CheckedSlot + b, |a|, k);
  }

  /** The text the title replace puts into the label: the escaped title with its `$`-patterns expanded. */
  function LabelTextAsWritten(t: Todo): string {
    var a := Head + IntToDecimal(t.id) + AfterId + CompletedSlot + AfterCompleted + CheckedSlot + AfterChecked;
    GetSubstitution(TitleSlot, a + TitleSlot + Tail, |a|, Escape(t.title))
  }

  /** What the four replace calls produce: the label holds the expanded replacement text. */
  lemma FragmentAsWrittenShape(t: Todo)
    ensures FragmentAsWritten(t) == LabelPrefix(IntToDecimal(t.id), t.completed) + LabelTextAsWritten(t) + Tail
  {
    var id := IntToDecimal(t.id);
    DefaultTemplatePlain();
    DecimalPlain(t.id);
    IdStep(Head, AfterId, AfterCompleted, AfterChecked, Tail, id);
    TitleStep(Head, AfterId, AfterCompleted, AfterChecked, Tail, id, Escape(t.title));
    CompletedStep(Head, AfterId, AfterCompleted, AfterChecked, Tail, id, LabelTextAsWritten(t), CompletedClass(t));
    CheckedStep(Head, AfterId, AfterCompleted, AfterChecked, Tail, id, LabelTextAsWritten(t), CompletedClass(t), CheckedAttr(t));
  }

  /**
   * Filling the template verbatim gives the list item: the id in data-id, the
   * completed class and checked attribute exactly when the task is completed,
   * and the escaped title in the label, which decodes back to the title.
   */
  lemma FragmentShape(t: Todo)
    ensures FragmentVerbatim(t) == Fragment(t)
    ensures Fragment(t) == LabelPrefix(IntToDecimal(t.id), t.completed) + Escape(t.title) + Tail
    ensures Unescape(Escape(t.title)) == t.title
  {
    var id := IntToDecimal(t.id);
    DefaultTemplatePlain();
    DecimalPlain(t.id);
    IdStep(Head, AfterId, AfterCompleted, AfterChecked, Tail, id);
    TitleStep(Head, AfterId, AfterCompleted, AfterChecked, Tail, id, Escape(t.title));
    CompletedStep(Head, AfterId, AfterCompleted, AfterChecked, Tail, id, Escape(t.title), CompletedClass(t));
    CheckedStep(Head, AfterId, AfterCompleted, AfterChecked, Tail, id, Escape(t.title), CompletedClass(t), CheckedAttr(t));
    UnescapeEscape(t.title);
  }

  /** For a title without a dollar sign the replace calls produce the intended item. */
  lemma FragmentAsWrittenAgrees(t: Todo)
    requires '$' !in t.title
    ensures FragmentAsWritten(t) == Fragment(t)
  {
    FragmentAsWrittenShape(t);
    FragmentShape(t);
    EscapeIsReplaceEach(t.title);
    ReplaceEachNoDollar(t.title);
    var a := Head + IntToDecimal(t.id) + AfterId + CompletedSlot + AfterCompleted + CheckedSlot + AfterChecked;
    GetSubstitutionPlain(TitleSlot, a + TitleSlot + Tail, |a|, Escape(t.title));
  }

  /** A task titled `$$` is shown with the label `$`. */
  lemma DollarTitleMisrendered()
    ensures var t := Todo(1, "$$", false);
      FragmentAsWritten(t) == LabelPrefix("1", false) + "$" + Tail &&
      Fragment(t) == LabelPrefix("1", false) + "$$" + Tail &&
      FragmentAsWritten(t) != Fragment(t)
  {
    var t := Todo(1, "$$", false);
    assert IntToDecimal(1) == "1";
    assert !HasSpecial("$$");
    assert Escape("$$") == "$$";
    FragmentAsWrittenShape(t);
    FragmentShape(t);
    var a := Head + "1" + AfterId + CompletedSlot + AfterCompleted + CheckedSlot + AfterChecked;
    assert GetSubstitution(TitleSlot, a + TitleSlot + Tail, |a|, "$$") == "$" by {
      assert "$$"[2..] == [];
    }
    assert |FragmentAsWritten(t)| + 1 == |Fragment(t)|;
  }

  /**
   * A `$` in front of a special character expands as `$&`, because the entity starts
   * with '&': a task titled `$&` is shown with the placeholder text in its label.
   */
  lemma AmpersandTitleMisrendered()
    ensures var t := Todo(1, "$&", false);
      FragmentAsWritten(t) == LabelPrefix("1", false) + TitleSlot + "amp;" + Tail &&
      Fragment(t) == LabelPrefix("1", false) + "$&amp;" + Tail
  {
    var t := Todo(1, "$&", false);
    var id := IntToDecimal(1);
    assert id == "1";
    EscapeDollarAmp();
    FragmentAsWrittenShape(t);
    FragmentShape(t);
    var a := Head + id + AfterId + CompletedSlot + AfterCompleted + CheckedSlot + AfterChecked;
    SubstituteDollarAmp(TitleSlot, a + TitleSlot + Tail, |a|);
    var p := LabelPrefix(id, false);
    assert LabelTextAsWritten(t) == TitleSlot + "amp;";
    assert FragmentAsWritten(t) == p + (TitleSlot + "amp;") + Tail;
    AppendAssoc(p, TitleSlot, "amp;");
  }

  lemma EscapeDollarAmp()
    ensures Escape("$&") == "$&amp;"
  {
    assert IsSpecial("$&"[1]);
    assert "$&"[1..][1..] == [];
  }

  lemma SubstituteDollarAmp(matched: string, str: string, position: nat)
    requires position + |matched| <= |str|
    ensures GetSubstitution(matched, str, position, "$&amp;") == matched + "amp;"
  {
    assert "$&amp;"[2..] == "amp;";
    GetSubstitutionPlain(matched, str, position, "amp;");
  }

  /** The markup the loop of show produces: the items of the four replace calls, one after another. */
  function ShowAsWritten(data: seq<Todo>): string {
    if data == [] then "" else ShowAsWritten(data[..|data| - 1]) + FragmentAsWritten(data[|data| - 1])
  }

  /** The intended markup for a list of tasks: the verbatim item of each, one after another. */
  function ShowSpec(data: seq<Todo>): string {
    if data == [] then "" else ShowSpec(data[..|data| - 1]) + Fragment(data[|data| - 1])
  }

  /** No title of the list holds a dollar sign. */
  predicate DollarFree(data: seq<Todo>) {
    forall k :: 0 <= k < |data| ==> '$' !in data[k].title
  }

  /** When no title holds a dollar sign, show renders the intended markup. */
  lemma {:induction false} ShowAsWrittenAgrees(data: seq<Todo>)
    requires DollarFree(data)
    ensures ShowAsWritten(data) == ShowSpec(data)
    decreases |data|
  {
    if data != [] {
      var d := data[..|data| - 1];
      assert DollarFree(d) by {
        forall k | 0 <= k < |d| ensures '$' !in d[k].title {
          assert d[k] == data[k];
        }
      }
      ShowAsWrittenAgrees(d);
      FragmentAsWrittenAgrees(data[|data| - 1]);
    }
  }

  /** A single task titled `$$` makes show render something other than the intended markup. */
  lemma ShowDollarMisrendered()
    ensures ShowAsWritten([Todo(1, "$$", false)]) != ShowSpec([Todo(1, "$$", false)])
  {
    var t := Todo(1, "$$", false);
    assert [t][..0] == [];
    assert ShowAsWritten([t]) == FragmentAsWritten(t);
    assert ShowSpec([t]) == Fragment(t);
    DollarTitleMisrendered();
  }

  lemma ShowSpecSnoc(s: seq<Todo>, t: Todo)
    ensures ShowSpec(s + [t]) == ShowSpec(s) + Fragment(t)
  {
    assert (s + [t])[..|s|] == s;
  }

  lemma {:induction false} ShowSpecAppend(a: seq<Todo>, b: seq<Todo>)
    ensures ShowSpec(a + b) == ShowSpec(a) + ShowSpec(b)
    decreases |b|
  {
    if b == [] {
      assert a + b == a;
    } else {
      var b', t := b[..|b| - 1], b[|b| - 1];
      assert b == b' + [t];
      assert a + b == (a + b') + [t];
      ShowSpecSnoc(a + b', t);
      ShowSpecAppend(a, b');
      ShowSpecSnoc(b', t);
      AppendAssoc(ShowSpec(a), ShowSpec(b'), Fragment(t));
    }
  }

  /** Each task contributes its own list item, whatever comes before or after it. */
  lemma ShowSpecSplit(a: seq<Todo>, t: Todo, b: seq<Todo>)
    ensures ShowSpec(a + [t] + b) == ShowSpec(a) + Fragment(t) + ShowSpec(b)
  {
    ShowSpecAppend(a + [t], b);
    ShowSpecAppend(a, [t]);
    assert [t][..0] == [];
  }

  /**
   * Template.show: the items of `data` as the replace calls build them, in order;
   * for titles without a dollar sign that is the intended markup.
   */
  method Show(data: seq<Todo>) returns (view: string)
    ensures view == ShowAsWritten(data)
    ensures DollarFree(data) ==> view == ShowSpec(data)
  {
    view := "";
    var i := 0;
    while i < |data|
      invariant 0 <= i <= |data|
      invariant view == ShowAsWritten(data[..i])
    {
      assert data[..i + 1][..i] == data[..i];
      view := view + FragmentAsWritten(data[i]);
      i := i + 1;
    }
    assert data[..i] == data;
    if DollarFree(data) {
      ShowAsWrittenAgrees(data);
    }
  }

  /** The footer text for `activeTodos` tasks left. */
  function ItemCounter(activeTodos: nat): string {
    NatToDecimal(activeTodos) + " item" + (if activeTodos == 1 then "" else "s") + " left"
  }

  /** The longest run of digits at the front of `s`. */
  function LeadingDigits(s: string): (r: string)
    ensures |r| <= |s| && r == s[..|r|]
    ensures forall k :: 0 <= k < |r| ==> IsDigit(r[k])
  {
    if s != [] && IsDigit(s[0]) then [s[0]] + LeadingDigits(s[1..]) else []
  }

  lemma {:induction false} LeadingDigitsOf(d: string, rest: string)
    requires forall k :: 0 <= k < |d| ==> IsDigit(d[k])
    requires rest == [] || !IsDigit(rest[0])
    ensures LeadingDigits(d + rest) == d
  {
    if d == [] {
      assert d + rest == rest;
    } else {
      assert (d + rest)[1..] == d[1..] + rest;
      LeadingDigitsOf(d[1..], rest);
    }
  }

  /** The counter text reads back as the count, followed by the singular or plural noun. */
  lemma ItemCounterReadsBack(n: nat)
    ensures ParseDecimal(LeadingDigits(ItemCounter(n))) == n
    ensures ItemCounter(n)[|LeadingDigits(ItemCounter(n))|..] == if n == 1 then " item left" else " items left"
  {
    var d := NatToDecimal(n);
    var rest := " item" + (if n == 1 then "" else "s") + " left";
    assert ItemCounter(n) == d + rest;
    LeadingDigitsOf(d, rest);
    DecimalRoundTrip(n);
    assert (d + rest)[|d|..] == rest;
  }

  lemma ItemCounterOne()
    ensures ItemCounter(1) == "1 item left" && ItemCounter(0) == "0 items left"
  {
  }

  /** The clear-completed label: shown exactly when some task is completed. */
  function ClearCompletedButton(completedTodos: int): (r: string)
    ensures r != [] <==> completedTodos > 0
    ensures r != [] ==> r == "Clear completed"
  {
    if completedTodos > 0 then "Clear completed" else ""
  }

  /** The label the count commands carry is non-empty exactly when a stored task is completed. */
  lemma ClearCompletedShownIff(s: seq<Todo>)
    ensures ClearCompletedButton(CountOf(s).completed) != [] <==> exists t :: t in s && t.completed
  {
    if exists t :: t in s && t.completed {
      var t :| t in s && t.completed;
      assert t in Matching(s, CompletedQuery(true));
    } else {
      MatchingNone(s, CompletedQuery(true));
    }
  }
}
