/** The walk over a format string: vsprintf of src/nslibc/vsprintf.c. */
module Format {
  import opened Wrappers
  import opened Words
  import opened Vsprintf

  // ---------- formats as data ----------

  /** A conversion as it is spelled behind '%'; only a directive cut off by the end of the format has no `conv`. */
  datatype Directive = Directive(flags: string, width: string, precision: Option<string>, qualifier: string, conv: string)

  datatype Item = Plain(c: char) | Conversion(d: Directive)

  predicate IsFlag(c: char) {
    c == '-' || c == '+' || c == ' ' || c == '#' || c == '0'
  }

  predicate IsQualifier(c: char) {
    c == 'h' || c == 'l' || c == 'L'
  }

  predicate IsConversion(c: char) {
    c in "csopxXdiun%"
  }

  function SpellDirective(d: Directive): string {
    "%" + (d.flags + (d.width + (SpellPrecision(d.precision) + (d.qualifier + d.conv))))
  }

  function SpellPrecision(p: Option<string>): string {
    if p.Some? then "." + p.value else ""
  }

  function SpellItem(t: Item): string {
    if t.Plain? then [t.c] else SpellDirective(t.d)
  }

  function Spell(items: seq<Item>): string {
    if items == [] then "" else SpellItem(items[0]) + Spell(items[1..])
  }

  ghost predicate Decimal(s: string) {
    forall c :: c in s ==> IsDigit(c)
  }

  ghost predicate WellFormed(t: Item) {
    match t
    case Plain(c) => c != '%'
    case Conversion(d) =>
      && (forall c :: c in d.flags ==> IsFlag(c))
      && Decimal(d.width) && (d.width != "" ==> d.width[0] != '0')
      && (d.precision.Some? ==> Decimal(d.precision.value))
      && |d.qualifier| <= 1 && (d.qualifier != "" ==> IsQualifier(d.qualifier[0]))
      && |d.conv| == 1 && IsConversion(d.conv[0])
  }

  // ---------- reading a format ----------

  function FlagsEnd(s: string, i: nat): (j: nat)
    requires i <= |s|
    ensures i <= j <= |s|
    decreases |s| - i
  {
    if i < |s| && IsFlag(s[i]) then FlagsEnd(s, i + 1) else i
  }

  function DigitsEnd(s: string, i: nat): (j: nat)
    requires i <= |s|
    ensures i <= j <= |s|
    decreases |s| - i
  {
    if i < |s| && IsDigit(s[i]) then DigitsEnd(s, i + 1) else i
  }

  function PrecisionEnd(s: string, i: nat): (j: nat)
    requires i <= |s|
    ensures i <= j <= |s|
  {
    if i < |s| && s[i] == '.' then DigitsEnd(s, i + 1) else i
  }

  function QualifierEnd(s: string, i: nat): (j: nat)
    requires i <= |s|
    ensures i <= j <= |s|
  {
    if i < |s| && IsQualifier(s[i]) then i + 1 else i
  }

  /** The parts of the directive whose '%' is in front of position `i`, by where they end. */
  datatype Ends = Ends(flags: nat, width: nat, precision: nat, qualifier: nat, conv: nat)

  function EndsOf(s: string, i: nat): (e: Ends)
    requires i <= |s|
    ensures i <= e.flags <= e.width <= e.precision <= e.qualifier <= e.conv <= |s|
  {
    var a := FlagsEnd(s, i);
    var b := DigitsEnd(s, a);
    var c := PrecisionEnd(s, b);
    var q := QualifierEnd(s, c);
    Ends(a, b, c, q, if q < |s| then q + 1 else q)
  }

  function DirectiveAt(s: string, i: nat): Directive
    requires i <= |s|
  {
    Parts(s, i, EndsOf(s, i))
  }

  function Parts(s: string, i: nat, e: Ends): Directive
    requires i <= e.flags <= e.width <= e.precision <= e.qualifier <= e.conv <= |s|
  {
    Directive(s[i..e.flags], s[e.flags..e.width], if e.precision == e.width then None else Some(s[e.width + 1..e.precision]),
              s[e.precision..e.qualifier], s[e.qualifier..e.conv])
  }

  /** The items of a format from position `i` on. */
  function Items(s: string, i: nat): seq<Item>
    requires i <= |s|
    decreases |s| - i
  {
    if i == |s| then []
    else if s[i] != '%' then [Plain(s[i])] + Items(s, i + 1)
    else [Conversion(DirectiveAt(s, i + 1))] + Items(s, EndsOf(s, i + 1).conv)
  }

  lemma SpellCons(t: Item, rest: seq<Item>)
    ensures Spell([t] + rest) == SpellItem(t) + Spell(rest)
  {
    assert ([t] + rest)[1..] == rest;
  }

  /** Nothing of a format is lost or read twice: its items spell the format. */
  lemma {:induction false} ItemsSpellTheFormat(s: string, i: nat)
    requires i <= |s|
    ensures Spell(Items(s, i)) == s[i..]
    decreases |s| - i
  {
    if i < |s| {
      if s[i] != '%' {
        ItemsSpellTheFormat(s, i + 1);
        SpellCons(Plain(s[i]), Items(s, i + 1));
        Rejoin(s, i, i + 1);
      } else {
        var j := EndsOf(s, i + 1).conv;
        ItemsSpellTheFormat(s, j);
        DirectiveSpells(s, i + 1);
        SpellCons(Conversion(DirectiveAt(s, i + 1)), Items(s, j));
        Rejoin(s, i, j);
        Rejoin(s[..j], i, i + 1);
      }
    }
  }

  lemma Rejoin(s: string, i: nat, j: nat)
    requires i < j <= |s|
    ensures s[i..] == s[i..j] + s[j..] && s[i..i + 1] == [s[i]] && s[i..j] == [s[i]] + s[i + 1..j]
  {
  }

  lemma DirectiveSpells(s: string, i: nat)
    requires i <= |s|
    ensures SpellDirective(DirectiveAt(s, i)) == "%" + s[i..EndsOf(s, i).conv]
  {
    var e := EndsOf(s, i);
    assert e.width < e.precision ==> s[e.width] == '.';
    PartsSpell(s, i, e);
  }

  lemma PartsSpell(s: string, i: nat, e: Ends)
    requires i <= e.flags <= e.width <= e.precision <= e.qualifier <= e.conv <= |s|
    requires e.width < e.precision ==> s[e.width] == '.'
    ensures SpellDirective(Parts(s, i, e)) == "%" + s[i..e.conv]
  {
    Joined(s, e.precision, e.qualifier, e.conv);
    assert SpellPrecision(Parts(s, i, e).precision) == s[e.width..e.precision];
    Joined(s, e.width, e.precision, e.conv);
    Joined(s, e.flags, e.width, e.conv);
    Joined(s, i, e.flags, e.conv);
  }

  lemma Joined(s: string, i: nat, j: nat, k: nat)
    requires i <= j <= k <= |s|
    ensures s[i..j] + s[j..k] == s[i..k]
  {
  }

  lemma {:induction false} FlagsEndIs(s: string, i: nat, j: nat)
    requires i <= j <= |s| && (forall k :: i <= k < j ==> IsFlag(s[k])) && (j < |s| ==> !IsFlag(s[j]))
    ensures FlagsEnd(s, i) == j
    decreases j - i
  {
    if i < j {
      FlagsEndIs(s, i + 1, j);
    }
  }

  lemma {:induction false} DigitsEndIs(s: string, i: nat, j: nat)
    requires i <= j <= |s| && (forall k :: i <= k < j ==> IsDigit(s[k])) && (j < |s| ==> !IsDigit(s[j]))
    ensures DigitsEnd(s, i) == j
    decreases j - i
  {
    if i < j {
      DigitsEndIs(s, i + 1, j);
    }
  }

  /** The text `a` stands in `s` from `i` on. */
  ghost predicate StandsAt(s: string, i: nat, a: string) {
    i + |a| <= |s| && s[i..i + |a|] == a
  }

  lemma Standing(s: string, i: nat, a: string, b: string)
    requires StandsAt(s, i, a + b)
    ensures StandsAt(s, i, a) && StandsAt(s, i + |a|, b)
  {
    assert s[i..i + |a|] == (a + b)[..|a|];
    assert s[i + |a|..i + |a| + |b|] == (a + b)[|a|..];
  }

  lemma FlagsAreRead(s: string, i: nat, a: string)
    requires StandsAt(s, i, a) && (forall c :: c in a ==> IsFlag(c)) && (i + |a| < |s| ==> !IsFlag(s[i + |a|]))
    ensures FlagsEnd(s, i) == i + |a|
  {
    forall k | i <= k < i + |a|
      ensures IsFlag(s[k])
    {
      assert s[k] == a[k - i];
    }
    FlagsEndIs(s, i, i + |a|);
  }

  lemma DigitsAreTaken(s: string, i: nat, a: string)
    requires StandsAt(s, i, a) && Decimal(a) && (i + |a| < |s| ==> !IsDigit(s[i + |a|]))
    ensures DigitsEnd(s, i) == i + |a|
  {
    forall k | i <= k < i + |a|
      ensures IsDigit(s[k])
    {
      assert s[k] == a[k - i];
    }
    DigitsEndIs(s, i, i + |a|);
  }

  /** What a well-formed conversion spells is read as that conversion, whatever comes behind. */
  lemma DirectiveIsRead(s: string, i: nat, d: Directive)
    requires WellFormed(Conversion(d)) && StandsAt(s, i, SpellDirective(d)[1..])
    ensures EndsOf(s, i).conv == i + |SpellDirective(d)| - 1 && DirectiveAt(s, i) == d
  {
    var a := i + |d.flags|;
    var b := a + |d.width|;
    var c := b + |SpellPrecision(d.precision)|;
    DirectiveStands(s, i, d, a, b, c);
    PartsAreRead(s, i, d, a, b, c);
    SlicesAreParts(s, i, d, a, b, c);
  }

  lemma DirectiveStands(s: string, i: nat, d: Directive, a: nat, b: nat, c: nat)
    requires StandsAt(s, i, SpellDirective(d)[1..])
    requires a == i + |d.flags| && b == a + |d.width| && c == b + |SpellPrecision(d.precision)|
    ensures StandsAt(s, i, d.flags) && StandsAt(s, a, d.width) && StandsAt(s, b, SpellPrecision(d.precision))
    ensures StandsAt(s, c, d.qualifier) && StandsAt(s, c + |d.qualifier|, d.conv)
    ensures i + |SpellDirective(d)| - 1 == c + |d.qualifier| + |d.conv|
  {
    DirectiveTail(d);
    PartsStand(s, i, d.flags, d.width, SpellPrecision(d.precision), d.qualifier, d.conv);
  }

  lemma DirectiveTail(d: Directive)
    ensures SpellDirective(d)[1..] == d.flags + (d.width + (SpellPrecision(d.precision) + (d.qualifier + d.conv)))
    ensures |SpellDirective(d)| == 1 + |d.flags| + |d.width| + |SpellPrecision(d.precision)| + |d.qualifier| + |d.conv|
  {
  }

  lemma PartsAreRead(s: string, i: nat, d: Directive, a: nat, b: nat, c: nat)
    requires WellFormed(Conversion(d)) && a == i + |d.flags| && b == a + |d.width| && c == b + |SpellPrecision(d.precision)|
    requires StandsAt(s, i, d.flags) && StandsAt(s, a, d.width) && StandsAt(s, b, SpellPrecision(d.precision))
    requires StandsAt(s, c, d.qualifier) && StandsAt(s, c + |d.qualifier|, d.conv)
    ensures EndsOf(s, i) == Ends(a, b, c, c + |d.qualifier|, c + |d.qualifier| + 1)
    ensures d.precision == if c == b then None else Some(s[b + 1..c])
  {
    TailIsRead(s, c, d.qualifier, d.conv);
    PrecisionIsRead(s, b, c, d.precision);
    HeadIsRead(s, i, d, a, b);
    EndsAre(s, i, Ends(a, b, c, c + |d.qualifier|, c + |d.qualifier| + 1));
  }

  lemma HeadIsRead(s: string, i: nat, d: Directive, a: nat, b: nat)
    requires WellFormed(Conversion(d)) && a == i + |d.flags| && b == a + |d.width|
    requires StandsAt(s, i, d.flags) && StandsAt(s, a, d.width)
    requires b < |s| && !IsDigit(s[b]) && !IsFlag(s[b])
    ensures FlagsEnd(s, i) == a && DigitsEnd(s, a) == b
  {
    DigitsAreTaken(s, a, d.width);
    FirstOf(s, a, d.width);
    FlagsAreRead(s, i, d.flags);
  }

  lemma EndsAre(s: string, i: nat, e: Ends)
    requires i <= e.flags <= e.width <= e.precision <= e.qualifier < |s| && e.conv == e.qualifier + 1
    requires FlagsEnd(s, i) == e.flags && DigitsEnd(s, e.flags) == e.width
    requires PrecisionEnd(s, e.width) == e.precision && QualifierEnd(s, e.precision) == e.qualifier
    ensures EndsOf(s, i) == e
  {
  }

  lemma SlicesAreParts(s: string, i: nat, d: Directive, a: nat, b: nat, c: nat)
    requires a == i + |d.flags| && b == a + |d.width| && c == b + |SpellPrecision(d.precision)| && |d.conv| == 1
    requires StandsAt(s, i, d.flags) && StandsAt(s, a, d.width)
    requires StandsAt(s, c, d.qualifier) && StandsAt(s, c + |d.qualifier|, d.conv)
    requires d.precision == if c == b then None else Some(s[b + 1..c])
    ensures Parts(s, i, Ends(a, b, c, c + |d.qualifier|, c + |d.qualifier| + 1)) == d
  {
  }

  lemma PartsStand(s: string, i: nat, a: string, b: string, c: string, d: string, e: string)
    requires StandsAt(s, i, a + (b + (c + (d + e))))
    ensures StandsAt(s, i, a) && StandsAt(s, i + |a|, b) && StandsAt(s, i + |a| + |b|, c)
    ensures StandsAt(s, i + |a| + |b| + |c|, d) && StandsAt(s, i + |a| + |b| + |c| + |d|, e)
  {
    Standing(s, i, a, b + (c + (d + e)));
    Standing(s, i + |a|, b, c + (d + e));
    Standing(s, i + |a| + |b|, c, d + e);
    Standing(s, i + |a| + |b| + |c|, d, e);
  }

  lemma FirstOf(s: string, i: nat, a: string)
    requires StandsAt(s, i, a)
    ensures a != "" ==> i < |s| && s[i] == a[0]
  {
  }

  lemma OneChar(s: string, i: nat, a: string)
    requires StandsAt(s, i, a) && |a| == 1
    ensures i < |s| && s[i] == a[0] && s[i..i + 1] == a
  {
    assert s[i] == s[i..i + 1][0];
  }

  lemma TailIsRead(s: string, c: nat, qualifier: string, conv: string)
    requires StandsAt(s, c, qualifier) && StandsAt(s, c + |qualifier|, conv)
    requires |qualifier| <= 1 && (qualifier != "" ==> IsQualifier(qualifier[0])) && |conv| == 1 && IsConversion(conv[0])
    ensures c < |s| && QualifierEnd(s, c) == c + |qualifier| < |s|
    ensures !IsDigit(s[c]) && !IsFlag(s[c]) && s[c] != '.'
  {
    OneChar(s, c + |qualifier|, conv);
    if qualifier != "" {
      OneChar(s, c, qualifier);
    }
  }

  lemma PrecisionIsRead(s: string, b: nat, c: nat, precision: Option<string>)
    requires StandsAt(s, b, SpellPrecision(precision)) && c == b + |SpellPrecision(precision)| < |s|
    requires precision.Some? ==> Decimal(precision.value)
    requires !IsDigit(s[c]) && !IsFlag(s[c]) && s[c] != '.'
    ensures PrecisionEnd(s, b) == c && !IsDigit(s[b]) && !IsFlag(s[b])
    ensures precision == if c == b then None else Some(s[b + 1..c])
  {
    if precision.Some? {
      Standing(s, b, ".", precision.value);
      OneChar(s, b, ".");
      assert s[b + 1..c] == precision.value;
      forall k | b + 1 <= k < c
        ensures IsDigit(s[k])
      {
        assert s[k] == s[b + 1..c][k - b - 1];
      }
      DigitsEndIs(s, b + 1, c);
    }
  }

  /** Conversely every list of well-formed items is what its spelling is read as. */
  lemma {:induction false} SpelledItemsAreRead(front: string, items: seq<Item>)
    requires forall t :: t in items ==> WellFormed(t)
    ensures Items(front + Spell(items), |front|) == items
    decreases |items|
  {
    if items != [] {
      var t, rest := items[0], items[1..];
      assert t in items && [t] + rest == items;
      assert forall u :: u in rest ==> u in items;
      SpelledItemsAreRead(front + SpellItem(t), rest);
      FirstItemIsRead(front, t, Spell(rest));
      Assoc(front, SpellItem(t), Spell(rest));
    }
  }

  lemma FirstItemIsRead(front: string, t: Item, rest: string)
    requires WellFormed(t)
    ensures var s := front + SpellItem(t) + rest;
            Items(s, |front|) == [t] + Items(s, |front + SpellItem(t)|)
  {
    var s := front + SpellItem(t) + rest;
    if t.Plain? {
      assert s[|front|] == t.c;
    } else {
      InMiddle(front, SpellDirective(t.d), rest);
      DirectiveIsRead(s, |front| + 1, t.d);
    }
  }

  lemma InMiddle(a: string, b: string, c: string)
    requires |b| > 0
    ensures var s := a + b + c;
            |a| < |s| && s[|a|] == b[0] && StandsAt(s, |a| + 1, b[1..])
  {
    var s := a + b + c;
    assert s[|a| + 1..|a| + |b|] == b[1..];
  }

  // ---------- what a format means ----------

  /** Which flags are there; how often and in which order does not matter. */
  function FlagsOf(flags: string): Flags {
    Flags('0' in flags, false, '+' in flags, ' ' in flags, '-' in flags, '#' in flags, false)
  }

  /** A field width or a precision in decimal; without digits it is `otherwise`. */
  function Amount(digits: string, otherwise: int): int {
    if digits == "" then otherwise else Eval(digits, 10, 0)
  }

  function Padded(text: string, width: int, left: bool): string {
    if left then text + Repeat(' ', width - |text|) else Repeat(' ', width - |text|) + text
  }

  /** The first `precision` characters; a negative precision asks for all. */
  function Cut(text: string, precision: int): string {
    if 0 <= precision < |text| then text[..precision] else text
  }

  /** The text of one conversion and how many arguments it took. */
  datatype Piece = Piece(text: string, used: nat)

  /** A '*' where a width or a precision may stand takes an argument. */
  predicate TakesStar(d: Directive) {
    && d.conv == "*" && d.qualifier == ""
    && ((d.width == "" && d.precision == None) || d.precision == Some(""))
  }

  /**
    What a conversion prints.  Arguments are words on the stack, `texts` the strings in memory.  There is no answer
    when the caller did not pass what the format asks for.  %n prints nothing; its store is not modelled.
   */
  function Printed(c: char, width: int, precision: int, f: Flags, args: seq<int>, texts: map<int, string>): Option<Piece>
    requires IsConversion(c)
  {
    if c == '%' then Some(Piece("%", 0))
    else if args == [] then None
    else if c == 'n' then Some(Piece("", 1))
    else if c == 'c' then Some(Piece(Padded([(args[0] % 256) as char], width, f.left), 1))
    else if c == 's' then
      if args[0] == 0 then Some(Piece(Padded(Cut("<NULL>", precision), width, f.left), 1))
      else if args[0] in texts then Some(Piece(Padded(Cut(texts[args[0]], precision), width, f.left), 1))
      else None
    else if c == 'd' || c == 'i' then Some(Piece(Field(ToI32(args[0]), 10, width, precision, f.(signed := true)), 1))
    else if c == 'u' then Some(Piece(Field(ToI32(args[0]), 10, width, precision, f), 1))
    else if c == 'o' then Some(Piece(Field(ToI32(args[0]), 8, width, precision, f), 1))
    else if c == 'x' then Some(Piece(Field(ToI32(args[0]), 16, width, precision, f.(small := true)), 1))
    else if c == 'p' && width == -1 then Some(Piece(Field(ToI32(args[0]), 16, 8, precision, f.(zeropad := true)), 1))
    else Some(Piece(Field(ToI32(args[0]), 16, width, precision, f), 1))
  }

  /** What a directive prints. */
  function Meaning(d: Directive, args: seq<int>, texts: map<int, string>): Option<Piece> {
    if d.conv == "" then Some(Piece("%", 0))
    else if IsConversion(d.conv[0]) then
      Printed(d.conv[0], Amount(d.width, -1), if d.precision.Some? then Amount(d.precision.value, 0) else -1,
              FlagsOf(d.flags), args, texts)
    else if TakesStar(d) then
      if args == [] then None else Some(Piece("%" + d.conv, 1))
    else Some(Piece("%" + d.conv, 0))
  }

  function Prepend(text: string, r: Option<string>): Option<string> {
    if r.Some? then Some(text + r.value) else None
  }

  /** What a format prints: what its items print, one after the other, each taking its arguments from the front. */
  function Render(items: seq<Item>, args: seq<int>, texts: map<int, string>): Option<string>
  {
    if items == [] then Some("")
    else if items[0].Plain? then Prepend([items[0].c], Render(items[1..], args, texts))
    else
      match Meaning(items[0].d, args, texts)
      case None => None
      case Some(p) => if p.used <= |args| then Prepend(p.text, Render(items[1..], args[p.used..], texts)) else None
  }

  // ---------- the walk ----------

  /** One space less than `n`, by a countdown that decrements first. */
  method PadShort(str: string, n: int) returns (out: string, left: int)
    ensures out == str + Repeat(' ', n - 1) && left == if n > 1 then 0 else n - 1
  {
    out, left := str, n - 1;
    while left > 0
      invariant n > 1 ==> 0 <= left
      invariant n <= 1 ==> left == n - 1
      invariant out == str + Repeat(' ', n - 1 - left)
    {
      RepeatAppend(' ', n - 1 - left);
      Assoc(str, Repeat(' ', n - 1 - left), " ");
      out, left := out + [' '], left - 1;
    }
  }

  /** Spaces until `n` is no more than `len`. */
  method PadTo(str: string, len: nat, n: int) returns (out: string, left: int)
    ensures out == str + Repeat(' ', n - len) && left < n && left < len
    ensures n <= len ==> out == str
  {
    out, left := str, n;
    while len < left
      invariant n > len ==> len <= left <= n
      invariant n <= len ==> left == n
      invariant out == str + Repeat(' ', n - left)
    {
      RepeatAppend(' ', n - left);
      Assoc(str, Repeat(' ', n - left), " ");
      out, left := out + [' '], left - 1;
    }
    left := left - 1;
  }

  /** Lines 193-198. */
  method PrintChar(str: string, c: char, width: int, left: bool) returns (out: string)
    ensures out == str + Padded([c], width, left)
  {
    var w := width;
    out := str;
    if !left {
      out, w := PadShort(out, w);
    }
    ghost var front := if left then "" else Repeat(' ', width - 1);
    out := out + [c];
    out, w := PadShort(out, w);
    Assoc(str, front, [c]);
    Assoc(str, front + [c], if left then Repeat(' ', width - 1) else "");
  }

  /** The first `len` characters of a string. */
  method CopyText(str: string, s: string, len: nat) returns (out: string)
    requires len <= |s|
    ensures out == str + s[..len]
  {
    out := str;
    for i := 0 to len
      invariant out == str + s[..i]
    {
      assert s[..i + 1] == s[..i] + [s[i]];
      Assoc(str, s[..i], [s[i]]);
      out := out + [s[i]];
    }
  }

  /** Lines 201-216. */
  method PrintText(str: string, s: string, width: int, precision: int, left: bool) returns (out: string)
    ensures out == str + Padded(Cut(s, precision), width, left)
  {
    var len, w := |s|, width;
    if precision >= 0 && len > precision {
      len := precision;
    }
    ghost var text, pad := s[..len], Repeat(' ', width - len);
    assert text == Cut(s, precision);
    ghost var front, back := if left then "" else pad, if left then pad else "";
    out := str;
    if !left {
      out, w := PadTo(out, len, w);
    }
    assert out == str + front;
    out := CopyText(out, s, len);
    out, w := PadTo(out, len, w);
    assert out == str + front + text + back;
    PaddedParts(str, text, width, left, front, back);
  }

  lemma PaddedParts(str: string, text: string, width: int, left: bool, front: string, back: string)
    requires front == (if left then "" else Repeat(' ', width - |text|)) && back == if left then Repeat(' ', width - |text|) else ""
    ensures str + front + text + back == str + Padded(text, width, left)
  {
  }

  /** Lines 149-159: the flags may come in any order and more than once. */
  method ReadFlags(fmt: string, i: nat) returns (f: Flags, j: nat)
    requires i <= |fmt|
    ensures j == FlagsEnd(fmt, i) && f == FlagsOf(fmt[i..j])
  {
    f, j := Flags(false, false, false, false, false, false, false), i;
    while j < |fmt| && IsFlag(fmt[j])
      invariant i <= j <= |fmt| && (forall k :: i <= k < j ==> IsFlag(fmt[k]))
      invariant f == FlagsOf(fmt[i..j])
      decreases |fmt| - j
    {
      assert fmt[i..j + 1] == fmt[i..j] + [fmt[j]];
      match fmt[j] {
        case '-' => f := f.(left := true);
        case '+' => f := f.(plus := true);
        case ' ' => f := f.(space := true);
        case '#' => f := f.(special := true);
        case _ => f := f.(zeropad := true);
      }
      j := j + 1;
    }
    FlagsEndIs(fmt, i, j);
  }

  method ReadDigits(fmt: string, i: nat) returns (value: int, j: nat)
    requires i < |fmt| && IsDigit(fmt[i])
    ensures i < j == DigitsEnd(fmt, i) && value == Eval(fmt[i..j], 10, 0) && value >= 0
  {
    value, j := SkipAtoi(fmt, i);
    DigitsEndIs(fmt, i, j);
    EvalIsNatural(fmt[i..j], 0);
  }

  lemma {:induction false} EvalIsNatural(s: string, acc: int)
    requires Decimal(s) && acc >= 0
    ensures Eval(s, 10, acc) >= 0
  {
    if s != "" {
      EvalIsNatural(s[1..], acc * 10 + DigitValue(s[0]));
    }
  }

  predicate StarAt(fmt: string, i: nat) {
    i < |fmt| && fmt[i] == '*'
  }

  /** Lines 160-171.  An argument is taken for '*', but the cursor stays on it. */
  method ReadWidth(fmt: string, i: nat, args: seq<int>, f: Flags) returns (width: int, g: Flags, j: nat, used: nat)
    requires i <= |fmt| && (StarAt(fmt, i) ==> args != [])
    ensures j == DigitsEnd(fmt, i) && used == if StarAt(fmt, i) then 1 else 0
    ensures !StarAt(fmt, i) ==> width == Amount(fmt[i..j], -1) && g == f
  {
    width, g, j, used := -1, f, i, 0;
    if i < |fmt| && IsDigit(fmt[i]) {
      width, j := ReadDigits(fmt, i);
    } else if i < |fmt| && fmt[i] == '*' {
      width, used := ToI32(args[0]), 1;
      if width < 0 {
        width, g := ToI32(-width), g.(left := true);
      }
    }
  }

  /** Lines 172-184. */
  method ReadPrecision(fmt: string, i: nat, args: seq<int>) returns (precision: int, j: nat, used: nat)
    requires i <= |fmt| && (i < |fmt| && fmt[i] == '.' && StarAt(fmt, i + 1) ==> args != [])
    ensures j == PrecisionEnd(fmt, i)
    ensures used == if i < j && StarAt(fmt, i + 1) then 1 else 0
    ensures j == i ==> precision == -1
    ensures i < j && !StarAt(fmt, i + 1) ==> precision == Amount(fmt[i + 1..j], 0)
  {
    precision, j, used := -1, i, 0;
    if i < |fmt| && fmt[i] == '.' {
      j := j + 1;
      if j < |fmt| && IsDigit(fmt[j]) {
        precision, j := ReadDigits(fmt, j);
      } else if j < |fmt| && fmt[j] == '*' {
        precision, used := ToI32(args[0]), 1;
      }
      if precision < 0 {
        precision := 0;
      }
    }
  }

  /** Lines 191-256, without the store of %n. */
  method Switch(str: string, c: char, width: int, precision: int, f: Flags, args: seq<int>, texts: map<int, string>)
    returns (out: string, used: nat)
    requires IsConversion(c) && !f.signed && !f.small && Printed(c, width, precision, f, args, texts).Some?
    ensures var m := Printed(c, width, precision, f, args, texts).value; out == str + m.text && used == m.used
  {
    out, used := str, 1;
    match c
    case 'c' => out := PrintChar(str, (args[0] % 256) as char, width, f.left);
    case 's' => out := PrintText(str, if args[0] == 0 then "<NULL>" else texts[args[0]], width, precision, f.left);
    case 'o' => out := PrintNumber(str, args[0], 8, width, precision, f);
    case 'p' =>
      if width == -1 {
        out := PrintNumber(str, args[0], 16, 8, precision, f.(zeropad := true));
      } else {
        out := PrintNumber(str, args[0], 16, width, precision, f);
      }
    case 'x' => out := PrintNumber(str, args[0], 16, width, precision, f.(small := true));
    case 'X' => out := PrintNumber(str, args[0], 16, width, precision, f);
    case 'd' | 'i' => out := PrintNumber(str, args[0], 10, width, precision, f.(signed := true));
    case 'u' => out := PrintNumber(str, args[0], 10, width, precision, f);
    case 'n' => assert str + "" == str;
    case _ => out, used := str + ['%'], 0;
  }

  method PrintNumber(str: string, word: int, base: int, width: int, precision: int, f: Flags) returns (out: string)
    requires base == 8 || base == 10 || base == 16
    ensures out == str + Field(ToI32(word), base, width, precision, f)
  {
    var r := Number(str, ToI32(word), base, width, precision, f);
    out := r.value;
  }

  /** What the code has found out about a directive when it comes to the conversion. */
  ghost predicate HeaderOf(d: Directive, f: Flags, width: int, precision: int) {
    f == FlagsOf(d.flags) && width == Amount(d.width, -1)
    && precision == if d.precision.Some? then Amount(d.precision.value, 0) else -1
  }

  /** Lines 149-190: everything in front of the conversion. */
  method ReadHeader(fmt: string, i: nat, args: seq<int>) returns (f: Flags, width: int, precision: int, j: nat, used: nat)
    requires i <= |fmt| && (TakesStar(DirectiveAt(fmt, i)) ==> args != [])
    ensures j == EndsOf(fmt, i).qualifier && used == if TakesStar(DirectiveAt(fmt, i)) then 1 else 0
    ensures !TakesStar(DirectiveAt(fmt, i)) ==> HeaderOf(DirectiveAt(fmt, i), f, width, precision)
  {
    ghost var e := EndsOf(fmt, i);
    StarIsTaken(fmt, i, e);
    var more;
    f, j := ReadFlags(fmt, i);
    width, f, j, used := ReadWidth(fmt, j, args, f);
    precision, j, more := ReadPrecision(fmt, j, args);
    used := used + more;
    assert !TakesStar(Parts(fmt, i, e)) ==> HeaderOf(Parts(fmt, i, e), f, width, precision);
    if j < |fmt| && IsQualifier(fmt[j]) {
      j := j + 1;
    }
  }

  lemma StarIsTaken(s: string, i: nat, e: Ends)
    requires i <= |s| && e == EndsOf(s, i)
    ensures TakesStar(Parts(s, i, e)) <==> StarAt(s, e.flags) || (e.width < e.precision && StarAt(s, e.width + 1))
    ensures !(StarAt(s, e.flags) && e.width < e.precision)
  {
    var d := Parts(s, i, e);
    assert |d.width| == e.width - e.flags && |d.qualifier| == e.qualifier - e.precision;
    assert d.conv == if e.qualifier == |s| then "" else [s[e.qualifier]];
    if e.width < e.precision {
      assert s[e.width] == '.' && |d.precision.value| == e.precision - e.width - 1;
    }
  }

  /** One directive, from behind its '%' on. */
  method PrintDirective(str: string, fmt: string, i: nat, args: seq<int>, texts: map<int, string>, ghost m: Piece)
    returns (out: string, j: nat, used: nat)
    requires i <= |fmt| && Meaning(DirectiveAt(fmt, i), args, texts) == Some(m)
    ensures i <= j == EndsOf(fmt, i).conv && out == str + m.text && used == m.used
  {
    var f, width, precision;
    f, width, precision, j, used := ReadHeader(fmt, i, args);
    ConvAt(fmt, i, j);
    if j == |fmt| {
      out := str + ['%'];
    } else if IsConversion(fmt[j]) {
      out, used := Switch(str, fmt[j], width, precision, f, args, texts);
      j := j + 1;
    } else {
      assert "%" + [fmt[j]] == ['%', fmt[j]];
      out := str + ['%', fmt[j]];
      j := j + 1;
    }
  }

  /** The conversion of a directive, if the format does not end before it. */
  lemma ConvAt(s: string, i: nat, j: nat)
    requires i <= |s| && j == EndsOf(s, i).qualifier
    ensures DirectiveAt(s, i).conv == (if j == |s| then "" else [s[j]])
    ensures EndsOf(s, i).conv == if j == |s| then j else j + 1
  {
  }

  lemma ItemsStep(s: string, i: nat)
    requires i < |s|
    ensures Items(s, i) != []
    ensures s[i] != '%' ==> Items(s, i)[0] == Plain(s[i]) && Items(s, i)[1..] == Items(s, i + 1)
    ensures s[i] == '%' ==> Items(s, i)[0] == Conversion(DirectiveAt(s, i + 1)) && Items(s, i)[1..] == Items(s, EndsOf(s, i + 1).conv)
  {
  }

  lemma PrependTwice(a: string, b: string, r: Option<string>)
    ensures Prepend(a, Prepend(b, r)) == Prepend(a + b, r)
  {
    if r.Some? {
      Assoc(a, b, r.value);
    }
  }

  /** What is printed, followed by what the items still to come will print. */
  function Outcome(str: string, items: seq<Item>, args: seq<int>, n: nat, texts: map<int, string>): Option<string> {
    if n <= |args| then Prepend(str, Render(items, args[n..], texts)) else None
  }

  lemma PlainStep(goal: Option<string>, str: string, items: seq<Item>, args: seq<int>, n: nat, texts: map<int, string>)
    requires items != [] && items[0].Plain? && goal == Outcome(str, items, args, n, texts)
    ensures goal == Outcome(str + [items[0].c], items[1..], args, n, texts)
  {
    if n <= |args| {
      PrependTwice(str, [items[0].c], Render(items[1..], args[n..], texts));
    }
  }

  lemma DirectiveIsMeant(str: string, items: seq<Item>, args: seq<int>, n: nat, texts: map<int, string>) returns (m: Piece)
    requires items != [] && items[0].Conversion? && Outcome(str, items, args, n, texts).Some?
    ensures n <= |args| && Meaning(items[0].d, args[n..], texts) == Some(m)
  {
    m := Meaning(items[0].d, args[n..], texts).value;
  }

  lemma DirectiveStep(goal: Option<string>, str: string, items: seq<Item>, args: seq<int>, n: nat, texts: map<int, string>, m: Piece,
                      str': string, n': nat)
    requires items != [] && items[0].Conversion? && goal == Outcome(str, items, args, n, texts) && goal.Some?
    requires n <= |args| && Meaning(items[0].d, args[n..], texts) == Some(m) && str' == str + m.text && n' == n + m.used
    ensures goal == Outcome(str', items[1..], args, n', texts)
  {
    assert args[n..][m.used..] == args[n'..];
    PrependTwice(str, m.text, Render(items[1..], args[n'..], texts));
  }

  /** vsprintf: what the items of the format mean, one after the other. */
  method Sprint(fmt: string, args: seq<int>, texts: map<int, string>) returns (str: string)
    requires Render(Items(fmt, 0), args, texts).Some?
    ensures Some(str) == Render(Items(fmt, 0), args, texts)
  {
    str := "";
    var i: nat, n: nat := 0, 0;
    ghost var items := Items(fmt, 0);
    ghost var goal := Render(items, args, texts);
    Unprepended(items, args, texts);
    while i < |fmt|
      invariant i <= |fmt| && items == Items(fmt, i)
      invariant goal == Outcome(str, items, args, n, texts)
      decreases |fmt| - i
    {
      ItemsStep(fmt, i);
      if fmt[i] != '%' {
        PlainStep(goal, str, items, args, n, texts);
        str, i := str + [fmt[i]], i + 1;
      } else {
        ghost var m := DirectiveIsMeant(str, items, args, n, texts);
        var out, j, used := PrintDirective(str, fmt, i + 1, args[n..], texts, m);
        var taken := n + used;
        DirectiveStep(goal, str, items, args, n, texts, m, out, taken);
        str, i, n := out, j, taken;
      }
      items := items[1..];
    }
    assert str + "" == str;
  }

  lemma Unprepended(items: seq<Item>, args: seq<int>, texts: map<int, string>)
    ensures Outcome("", items, args, 0, texts) == Render(items, args, texts)
  {
    assert args[0..] == args;
    var r := Render(items, args, texts);
    assert r.Some? ==> "" + r.value == r.value;
  }

  // ---------- consequences ----------

  lemma RenderCons(t: Item, rest: seq<Item>, args: seq<int>, texts: map<int, string>)
    ensures Render([t] + rest, args, texts) ==
            if t.Plain? then Prepend([t.c], Render(rest, args, texts))
            else
              match Meaning(t.d, args, texts)
              case None => None
              case Some(p) => if p.used <= |args| then Prepend(p.text, Render(rest, args[p.used..], texts)) else None
  {
    assert ([t] + rest)[1..] == rest;
  }

  const PERCENT := Directive("", "", None, "", "%")

  /** A text in which every '%' is doubled. */
  function Escaped(text: string): seq<Item> {
    if text == "" then []
    else [if text[0] == '%' then Conversion(PERCENT) else Plain(text[0])] + Escaped(text[1..])
  }

  lemma {:induction false} EscapedIsRendered(text: string, args: seq<int>, texts: map<int, string>)
    ensures Render(Escaped(text), args, texts) == Some(text)
  {
    if text != "" {
      var t, rest := if text[0] == '%' then Conversion(PERCENT) else Plain(text[0]), text[1..];
      EscapedIsRendered(rest, args, texts);
      RenderCons(t, Escaped(rest), args, texts);
      assert args[0..] == args && [text[0]] + rest == text;
      if text[0] == '%' {
        assert Meaning(PERCENT, args, texts) == Some(Piece("%", 0));
      }
    }
  }

  /** Any text can be printed: with every '%' doubled the format prints the text itself and takes no argument. */
  lemma EscapedTextIsPrinted(text: string, args: seq<int>, texts: map<int, string>)
    ensures Items(Spell(Escaped(text)), 0) == Escaped(text)
    ensures Render(Escaped(text), args, texts) == Some(text)
  {
    var items := Escaped(text);
    EscapedIsWellFormed(text);
    SpelledItemsAreRead("", items);
    assert "" + Spell(items) == Spell(items);
    EscapedIsRendered(text, args, texts);
  }

  lemma {:induction false} EscapedIsWellFormed(text: string)
    ensures forall t :: t in Escaped(text) ==> WellFormed(t)
  {
    if text != "" {
      EscapedIsWellFormed(text[1..]);
      assert WellFormed(Conversion(PERCENT));
    }
  }

  lemma StarText(s: string, flags: string, rest: string)
    requires s == "%" + flags + "*" + rest
    ensures var k := |flags| + 1;
            k < |s| && s[0] == '%' && s[k] == '*' && StandsAt(s, 1, flags) && StandsAt(s, k, "*") && StandsAt(s, k, "")
  {
  }

  lemma StarIsItsConversion(s: string, flags: string, rest: string)
    requires (forall c :: c in flags ==> IsFlag(c)) && s == "%" + flags + "*" + rest
    ensures Items(s, 0) == [Conversion(Directive(flags, "", None, "", "*"))] + Items(s, |flags| + 2)
  {
    var k := |flags| + 1;
    StarText(s, flags, rest);
    FlagsAreRead(s, 1, flags);
    var d := Directive(flags, "", None, "", "*");
    EndsAre(s, 1, Ends(k, k, k, k, k + 1));
    SlicesAreParts(s, 1, d, k, k, k);
    ConversionFirst(s, d, k + 1);
  }

  lemma StarMeans(flags: string, args: seq<int>, texts: map<int, string>)
    requires args != []
    ensures Meaning(Directive(flags, "", None, "", "*"), args, texts) == Some(Piece("%*", 1))
  {
    assert "%" + "*" == "%*";
  }

  /** What a '*' for the width really does: it takes an argument and is printed. */
  lemma StarIsPrinted(flags: string, items: seq<Item>, args: seq<int>, texts: map<int, string>)
    requires (forall c :: c in flags ==> IsFlag(c)) && (forall t :: t in items ==> WellFormed(t)) && args != []
    ensures Render(Items("%" + flags + "*" + Spell(items), 0), args, texts) == Prepend("%*", Render(items, args[1..], texts))
  {
    var front := "%" + flags + "*";
    var s := front + Spell(items);
    SpelledItemsAreRead(front, items);
    StarIsItsConversion(s, flags, Spell(items));
    StarMeans(flags, args, texts);
    StarFirst(flags, items, args, texts);
  }

  lemma StarFirst(flags: string, items: seq<Item>, args: seq<int>, texts: map<int, string>)
    requires args != []
    ensures Render([Conversion(Directive(flags, "", None, "", "*"))] + items, args, texts) == Prepend("%*", Render(items, args[1..], texts))
  {
    var d := Directive(flags, "", None, "", "*");
    StarMeans(flags, args, texts);
    RenderCons(Conversion(d), items, args, texts);
  }

  lemma PrecisionStarText(s: string, flags: string, width: string, rest: string, a: nat, b: nat)
    requires s == "%" + flags + width + ".*" + rest && a == 1 + |flags| && b == a + |width|
    ensures b + 1 < |s| && s[0] == '%' && s[b] == '.' && s[b + 1] == '*'
    ensures StandsAt(s, 1, flags) && StandsAt(s, a, width) && StandsAt(s, b + 1, "") && StandsAt(s, b + 1, "*")
  {
  }

  lemma PrecisionStarEnds(s: string, flags: string, width: string, rest: string, a: nat, b: nat)
    requires (forall c :: c in flags ==> IsFlag(c)) && Decimal(width) && (width != "" ==> width[0] != '0')
    requires s == "%" + flags + width + ".*" + rest && a == 1 + |flags| && b == a + |width|
    ensures |s| > b + 1 && EndsOf(s, 1) == Ends(a, b, b + 1, b + 1, b + 2)
  {
    PrecisionStarText(s, flags, width, rest, a, b);
    DigitsAreTaken(s, a, width);
    FirstOf(s, a, width);
    FlagsAreRead(s, 1, flags);
    EndsAre(s, 1, Ends(a, b, b + 1, b + 1, b + 2));
  }

  lemma PrecisionStarIsItsConversion(s: string, flags: string, width: string, rest: string, j: nat)
    requires (forall c :: c in flags ==> IsFlag(c)) && Decimal(width) && (width != "" ==> width[0] != '0')
    requires s == "%" + flags + width + ".*" + rest && j == |flags| + |width| + 3
    ensures j <= |s| && Items(s, 0) == [Conversion(Directive(flags, width, Some(""), "", "*"))] + Items(s, j)
  {
    var a, b := 1 + |flags|, 1 + |flags| + |width|;
    PrecisionStarText(s, flags, width, rest, a, b);
    PrecisionStarEnds(s, flags, width, rest, a, b);
    var d := Directive(flags, width, Some(""), "", "*");
    SlicesAreParts(s, 1, d, a, b, b + 1);
    ConversionFirst(s, d, j);
  }

  lemma ConversionFirst(s: string, d: Directive, j: nat)
    requires s != "" && s[0] == '%' && DirectiveAt(s, 1) == d && EndsOf(s, 1).conv == j
    ensures Items(s, 0) == [Conversion(d)] + Items(s, j)
  {
  }

  /** What a '*' for the precision really does: it takes an argument and is printed, and the width is dropped. */
  lemma PrecisionStarIsPrinted(flags: string, width: string, items: seq<Item>, args: seq<int>, texts: map<int, string>)
    requires (forall c :: c in flags ==> IsFlag(c)) && Decimal(width) && (width != "" ==> width[0] != '0')
    requires (forall t :: t in items ==> WellFormed(t)) && args != []
    ensures Render(Items("%" + flags + width + ".*" + Spell(items), 0), args, texts) == Prepend("%*", Render(items, args[1..], texts))
  {
    var front, rest := "%" + flags + width + ".*", Spell(items);
    var s := front + rest;
    SpelledItemsAreRead(front, items);
    PrecisionStarIsItsConversion(s, flags, width, rest, |front|);
    PrecisionStarFirst(flags, width, items, args, texts);
  }

  lemma PrecisionStarFirst(flags: string, width: string, items: seq<Item>, args: seq<int>, texts: map<int, string>)
    requires args != []
    ensures Render([Conversion(Directive(flags, width, Some(""), "", "*"))] + items, args, texts) == Prepend("%*", Render(items, args[1..], texts))
  {
    var d := Directive(flags, width, Some(""), "", "*");
    assert "%" + "*" == "%*";
    assert Meaning(d, args, texts) == Some(Piece("%*", 1));
    RenderCons(Conversion(d), items, args, texts);
  }

  /** Integers in decimal, octal or hexadecimal. */
  predicate IsInteger(c: char) {
    c in "dioxXu"
  }

  lemma {:induction false} DigitsHaveNoPercent(u: nat, base: int, small: bool)
    requires 2 <= base <= 16
    ensures '%' !in Digits(u, base, small)
    decreases u
  {
    if u >= base {
      DivideBy(u, base);
      DigitsHaveNoPercent(u / base, base, small);
    }
  }

  lemma AssembleHasNoPercent(head: string, body: string, missing: int, f: Flags)
    requires '%' !in head && '%' !in body
    ensures '%' !in Assemble(head, body, missing, f)
  {
    assert '%' !in Before(missing, f) && '%' !in Inner(missing, f) && '%' !in Behind(missing, f);
  }

  lemma FieldHasNoPercent(num: int, base: int, size: int, precision: int, f: Flags)
    requires 2 <= base <= 16
    ensures '%' !in Field(num, base, size, precision, f)
  {
    var ds := Digits(Magnitude(num, f), base, f.small);
    DigitsHaveNoPercent(Magnitude(num, f), base, f.small);
    assert '%' !in Repeat('0', precision - |ds|);
    AssembleHasNoPercent(SignText(num, f) + Prefix(base, f), Body(ds, precision), Missing(num, base, size, precision, f), f);
  }

  lemma IntegersHaveNoPercent(c: char, width: int, precision: int, f: Flags, word: int, texts: map<int, string>) returns (text: string)
    requires IsInteger(c)
    ensures Printed(c, width, precision, f, [word], texts) == Some(Piece(text, 1)) && '%' !in text
  {
    var num := ToI32(word);
    if c == 'o' {
      text := Field(num, 8, width, precision, f);
      FieldHasNoPercent(num, 8, width, precision, f);
    } else if c == 'u' {
      text := Field(num, 10, width, precision, f);
      FieldHasNoPercent(num, 10, width, precision, f);
    } else if c == 'X' {
      text := Field(num, 16, width, precision, f);
      FieldHasNoPercent(num, 16, width, precision, f);
    } else if c == 'x' {
      text := Field(num, 16, width, precision, f.(small := true));
      FieldHasNoPercent(num, 16, width, precision, f.(small := true));
    } else {
      text := Field(num, 10, width, precision, f.(signed := true));
      FieldHasNoPercent(num, 10, width, precision, f.(signed := true));
    }
  }

  /** A single directive on its own. */
  lemma OneDirective(d: Directive, args: seq<int>, texts: map<int, string>, m: Piece)
    requires WellFormed(Conversion(d)) && Meaning(d, args, texts) == Some(m) && m.used <= |args|
    ensures Render(Items(SpellDirective(d), 0), args, texts) == Some(m.text)
  {
    OneItem(d);
    RenderCons(Conversion(d), [], args, texts);
    assert [Conversion(d)] + [] == [Conversion(d)];
    assert m.text + "" == m.text;
  }

  lemma OneItem(d: Directive)
    requires WellFormed(Conversion(d))
    ensures Items(SpellDirective(d), 0) == [Conversion(d)]
  {
    SpelledItemsAreRead("", [Conversion(d)]);
    SpellCons(Conversion(d), []);
    assert [Conversion(d)] + [] == [Conversion(d)];
    assert "" + Spell([Conversion(d)]) == SpellDirective(d);
  }

  /** So a width passed as an argument is never obeyed: no width written into the format would print the same. */
  lemma StarIsNotAWidth(flags: string, width: string, c: char, w: int, word: int, texts: map<int, string>)
    requires WellFormed(Conversion(Directive(flags, width, None, "", [c]))) && IsInteger(c)
    ensures Render(Items("%" + flags + "*" + [c], 0), [w, word], texts)
            != Render(Items("%" + flags + width + [c], 0), [word], texts)
  {
    var text := WidthIsObeyed(flags, width, c, word, texts);
    StarWithLetter(flags, c, [w, word], texts);
    assert ("%*" + [c])[0] == '%';
  }

  lemma WidthIsObeyed(flags: string, width: string, c: char, word: int, texts: map<int, string>) returns (text: string)
    requires WellFormed(Conversion(Directive(flags, width, None, "", [c]))) && IsInteger(c)
    ensures Render(Items("%" + flags + width + [c], 0), [word], texts) == Some(text) && '%' !in text
  {
    var d := Directive(flags, width, None, "", [c]);
    var args := [word];
    text := IntegersHaveNoPercent(c, Amount(width, -1), -1, FlagsOf(flags), word, texts);
    OneDirective(d, args, texts, Piece(text, 1));
    SpelledPlainly(d, c);
  }

  lemma SpelledPlainly(d: Directive, c: char)
    requires d.precision == None && d.qualifier == "" && d.conv == [c]
    ensures SpellDirective(d) == "%" + d.flags + d.width + [c]
  {
  }

  lemma StarWithLetter(flags: string, c: char, args: seq<int>, texts: map<int, string>)
    requires (forall c :: c in flags ==> IsFlag(c)) && c != '%' && args != []
    ensures Render(Items("%" + flags + "*" + [c], 0), args, texts) == Some("%*" + [c])
  {
    var items := [Plain(c)];
    StarIsPrinted(flags, items, args, texts);
    OneLetter(c, args[1..], texts);
  }

  lemma OneLetter(c: char, args: seq<int>, texts: map<int, string>)
    ensures Spell([Plain(c)]) == [c] && Render([Plain(c)], args, texts) == Some([c])
  {
    SpellCons(Plain(c), []);
    RenderCons(Plain(c), [], args, texts);
    assert [Plain(c)] + [] == [Plain(c)];
    assert [c] + "" == [c];
  }

  /** The base of a conversion that prints a number. */
  function BaseOf(conv: string): int {
    if conv == "o" then 8 else if conv == "u" || conv == "d" || conv == "i" then 10 else 16
  }

  function PrecisionOf(d: Directive): int {
    if d.precision == None then -1 else if d.precision.value == "" then 0 else Eval(d.precision.value, 10, 0)
  }

  predicate IsUnsigned(d: Directive) {
    d.conv == "u" || d.conv == "o" || d.conv == "x" || d.conv == "X"
  }

  lemma UnsignedMeans(d: Directive, word: int, texts: map<int, string>, f: Flags)
    requires IsUnsigned(d) && f == FlagsOf(d.flags).(small := d.conv == "x")
    ensures Meaning(d, [word], texts) == Some(Piece(Field(ToI32(word), BaseOf(d.conv), Amount(d.width, -1), PrecisionOf(d), f), 1))
  {
    var c := d.conv[0];
    assert c == 'x' ==> d.conv == "x" && f == FlagsOf(d.flags).(small := true);
    assert c != 'x' ==> f == FlagsOf(d.flags);
    assert Meaning(d, [word], texts) == Printed(c, Amount(d.width, -1), PrecisionOf(d), FlagsOf(d.flags), [word], texts);
    UnsignedPrints(c, Amount(d.width, -1), PrecisionOf(d), FlagsOf(d.flags), word, texts);
  }

  lemma UnsignedPrints(c: char, width: int, precision: int, f: Flags, word: int, texts: map<int, string>)
    requires IsUnsigned(Directive("", "", None, "", [c]))
    ensures Printed(c, width, precision, f, [word], texts)
            == Some(Piece(Field(ToI32(word), BaseOf([c]), width, precision, if c == 'x' then f.(small := true) else f), 1))
  {
    assert [c][0] == c;
  }

  /**
    vsprintf and simple_strtoul are inverse: an unsigned conversion without '+', ' ' and '#' is read back, with
    nothing left over, exactly when its field holds no padding spaces.
   */
  lemma PrintedIsReadBack(d: Directive, word: int, texts: map<int, string>)
    requires WellFormed(Conversion(d)) && IsUnsigned(d)
    requires '+' !in d.flags && ' ' !in d.flags && '#' !in d.flags
    ensures var r := Render(Items(SpellDirective(d), 0), [word], texts);
            && r.Some?
            && (Strtoul(r.value, BaseOf(d.conv)) == (ToU32(word), |r.value|)
                <==> Tight(ToI32(word), BaseOf(d.conv), Amount(d.width, -1), PrecisionOf(d), FlagsOf(d.flags).(small := d.conv == "x")))
  {
    var base, width, precision, f := BaseOf(d.conv), Amount(d.width, -1), PrecisionOf(d), FlagsOf(d.flags).(small := d.conv == "x");
    var text := Field(ToI32(word), base, width, precision, f);
    var args := [word];
    UnsignedMeans(d, word, texts, f);
    OneDirective(d, args, texts, Piece(text, 1));
    PlainFieldIsReadBack(ToI32(word), base, width, precision, f);
    UnsignedMagnitude(word, f);
  }

  lemma UnsignedMagnitude(word: int, f: Flags)
    requires !f.signed
    ensures Magnitude(ToI32(word), f) == ToU32(word)
  {
  }

  // ---------- what each conversion prints ----------

  /** Whatever comes behind it, directive `d` prints `text` and takes the first `used` arguments. */
  ghost predicate RendersAs(d: Directive, args: seq<int>, texts: map<int, string>, text: string, used: nat) {
    used <= |args| && forall rest :: Render([Conversion(d)] + rest, args, texts) == Prepend(text, Render(rest, args[used..], texts))
  }

  lemma MeaningIsRendered(d: Directive, args: seq<int>, texts: map<int, string>, text: string, used: nat)
    requires Meaning(d, args, texts) == Some(Piece(text, used)) && used <= |args|
    ensures RendersAs(d, args, texts, text, used)
  {
    forall rest
      ensures Render([Conversion(d)] + rest, args, texts) == Prepend(text, Render(rest, args[used..], texts))
    {
      RenderCons(Conversion(d), rest, args, texts);
    }
  }

  /** What a directive means is what its conversion prints with the width, the precision and the flags it has. */
  lemma MeaningOf(d: Directive, c: char, args: seq<int>, texts: map<int, string>)
    requires WellFormed(Conversion(d)) && d.conv == [c]
    ensures Meaning(d, args, texts) == Printed(c, Amount(d.width, -1), PrecisionOf(d), FlagsOf(d.flags), args, texts)
  {
    assert d.conv[0] == c;
  }

  /** The width asked for; `%p` without one asks for eight characters. */
  function WidthOf(d: Directive): int
    requires d.conv != ""
  {
    if d.width != "" then Eval(d.width, 10, 0) else if d.conv == "p" then 8 else -1
  }

  /** The characters of a field: its parts in order, and what decides about each of them. */
  datatype Look = Look(l: nat, sign: string, prefix: string, z: nat, ds: string, r: nat)

  function TextOf(k: Look): string {
    Laid(k.l, k.sign, k.prefix, k.z, k.ds, k.r)
  }

  /**
    The parts fill the width, with spaces in front, or zeros before the digits with the flag '0', or spaces behind with
    the flag '-', and there are no more zeros than the precision or the flag '0' ask for.
   */
  ghost predicate Fills(k: Look, width: int, precision: int, zero: bool, left: bool) {
    var digits := if precision > |k.ds| then precision else |k.ds|;
    var contents := |k.sign| + |k.prefix| + digits;
    && k.l + |k.sign| + |k.prefix| + k.z + |k.ds| + k.r == (if width > contents then width else contents)
    && (k.l > 0 ==> !left && !zero) && (k.r > 0 ==> left) && (!zero || left ==> k.z == digits - |k.ds|)
  }

  /** A number in some base with the flags of a directive. */
  lemma NumberLooks(word: int, base: int, width: int, precision: int, f: Flags) returns (k: Look)
    requires 2 <= base <= 16
    ensures Field(ToI32(word), base, width, precision, f) == TextOf(k)
    ensures k.sign == if f.signed && ToI32(word) < 0 then "-" else if f.plus then "+" else if f.space then " " else ""
    ensures k.prefix == if f.special && base == 8 then "0"
                        else if f.special && base == 16 then (if f.small then "0x" else "0X") else ""
    ensures Numeral(k.ds, if f.signed then (if ToI32(word) < 0 then -ToI32(word) else ToI32(word)) else ToU32(word), base, f.small)
    ensures Fills(k, width, precision, f.zeropad, f.left)
  {
    var num := ToI32(word);
    var l, z, ds, r := FieldLooks(num, base, width, precision, f);
    k := Look(l, if f.signed && num < 0 then "-" else if f.plus then "+" else if f.space then " " else "",
              if f.special && base == 8 then "0" else if f.special && base == 16 then (if f.small then "0x" else "0X") else "",
              z, ds, r);
  }

  predicate IsNumber(c: char) {
    c == 'd' || c == 'i' || c == 'u' || c == 'o' || c == 'x' || c == 'X' || c == 'p'
  }

  lemma AmountIs(digits: string, otherwise: int)
    requires Decimal(digits)
    ensures digits != "" ==> Amount(digits, otherwise) == Eval(digits, 10, 0) >= 0
  {
    EvalIsNatural(digits, 0);
  }

  /** The flags with which a conversion prints a number; only `%p` looks at whether a width was asked for. */
  function NumberFlags(c: char, flags: string, width: string): Flags {
    Flags('0' in flags || (c == 'p' && width == ""), c == 'd' || c == 'i', '+' in flags, ' ' in flags, '-' in flags, '#' in flags, c == 'x')
  }

  lemma NumberIsPrinted(c: char, width: int, precision: int, f: Flags, args: seq<int>, texts: map<int, string>)
    requires IsNumber(c) && args != [] && (c == 'p' ==> width != -1) && !f.signed && !f.small
    ensures Printed(c, width, precision, f, args, texts)
            == Some(Piece(Field(ToI32(args[0]), BaseOf([c]), width, precision, f.(signed := c == 'd' || c == 'i', small := c == 'x')), 1))
  {
    assert [c][0] == c;
    assert f == f.(signed := false, small := false);
  }

  lemma PointerIsPrinted(precision: int, f: Flags, args: seq<int>, texts: map<int, string>)
    requires args != []
    ensures Printed('p', -1, precision, f, args, texts) == Some(Piece(Field(ToI32(args[0]), 16, 8, precision, f.(zeropad := true)), 1))
  {
  }

  lemma WidthIsAmount(d: Directive, c: char)
    requires d.conv == [c] && (c != 'p' || d.width != "")
    ensures WidthOf(d) == Amount(d.width, -1)
  {
    assert d.conv[0] == c;
  }

  /** The field that a conversion prints a word into. */
  lemma NumberIsMeant(d: Directive, c: char, args: seq<int>, texts: map<int, string>)
    requires WellFormed(Conversion(d)) && d.conv == [c] && IsNumber(c) && args != []
    ensures var field := Field(ToI32(args[0]), BaseOf(d.conv), WidthOf(d), PrecisionOf(d), NumberFlags(c, d.flags, d.width));
            Meaning(d, args, texts) == Some(Piece(field, 1))
  {
    var width, f := Amount(d.width, -1), FlagsOf(d.flags);
    AmountIs(d.width, -1);
    MeaningOf(d, c, args, texts);
    var all, n := NumberFlags(c, d.flags, d.width), PrecisionOf(d);
    if c == 'p' && d.width == "" {
      PointerIsPrinted(n, f, args, texts);
      assert WidthOf(d) == 8 && all == f.(zeropad := true);
    } else {
      NumberIsPrinted(c, width, n, f, args, texts);
      WidthIsAmount(d, c);
      assert all == f.(signed := c == 'd' || c == 'i', small := c == 'x');
    }
  }

  /** What the parts of a number printed by conversion `c` are. */
  ghost predicate LooksLike(k: Look, c: char, flags: string, word: int) {
    var num, signed := ToI32(word), c == 'd' || c == 'i';
    var decimal := signed || c == 'u';
    && k.sign == (if signed && num < 0 then "-" else if '+' in flags then "+" else if ' ' in flags then " " else "")
    && k.prefix == (if '#' !in flags || decimal then "" else if c == 'o' then "0" else if c == 'x' then "0x" else "0X")
    && Numeral(k.ds, if !signed then ToU32(word) else if num < 0 then -num else num,
               if decimal then 10 else if c == 'o' then 8 else 16, c == 'x')
  }

  lemma LookIs(k: Look, c: char, flags: string, width: string, word: int)
    requires IsNumber(c)
    requires var f := NumberFlags(c, flags, width);
             && k.sign == (if f.signed && ToI32(word) < 0 then "-" else if f.plus then "+" else if f.space then " " else "")
             && k.prefix == (if f.special && BaseOf([c]) == 8 then "0"
                             else if f.special && BaseOf([c]) == 16 then (if f.small then "0x" else "0X") else "")
             && Numeral(k.ds, if f.signed then (if ToI32(word) < 0 then -ToI32(word) else ToI32(word)) else ToU32(word),
                        BaseOf([c]), f.small)
    ensures LooksLike(k, c, flags, word)
  {
    assert [c][0] == c;
  }

  /**
    Every conversion that prints a number: it takes one argument and prints spaces, the sign, the prefix, zeros, the digits and spaces.  `%d` and `%i` print the argument as a signed number in decimal,
    the others as a word without a sign, in decimal (`u`), octal (`o`) or hexadecimal digits (`x`, `X`, `p`).
   */
  lemma NumberIsRendered(d: Directive, c: char, args: seq<int>, texts: map<int, string>) returns (k: Look)
    requires WellFormed(Conversion(d)) && d.conv == [c] && IsNumber(c) && args != []
    ensures RendersAs(d, args, texts, TextOf(k), 1)
    ensures LooksLike(k, c, d.flags, args[0])
    ensures Fills(k, WidthOf(d), PrecisionOf(d), '0' in d.flags || (c == 'p' && d.width == ""), '-' in d.flags)
  {
    NumberIsMeant(d, c, args, texts);
    k := NumberLooks(args[0], BaseOf(d.conv), WidthOf(d), PrecisionOf(d), NumberFlags(c, d.flags, d.width));
    LookIs(k, c, d.flags, d.width, args[0]);
    MeaningIsRendered(d, args, texts, TextOf(k), 1);
  }

  /** The text, without the spaces around it, is a '-' exactly for a negative number and then its digits in decimal. */
  ghost predicate ReadsAs(text: string, num: int, at: nat, end: nat) {
    HoldsNumber(text, if num < 0 then "-" else "", if num < 0 then -num else num, 10, at, end)
  }

  lemma DecimalIsRead(k: Look, c: char, flags: string, word: int, at: nat, end: nat)
    requires LooksLike(k, c, flags, word) && (c == 'd' || c == 'i') && '+' !in flags && ' ' !in flags
    requires at == k.l + |k.sign| && end == at + k.z + |k.ds|
    ensures ReadsAs(TextOf(k), ToI32(word), at, end)
  {
    var num := ToI32(word);
    assert k.prefix == "" && k.sign + "" == k.sign;
    LaidIsReadBack(TextOf(k), k.l, k.sign, "", k.z, k.ds, k.r, if num < 0 then -num else num, 10, false, at, end);
  }

  /** `%d` and `%i` without '+' and ' ' print the argument as a signed number, which is read back from the text. */
  lemma DecimalIsRendered(d: Directive, c: char, args: seq<int>, texts: map<int, string>, word: int)
    returns (text: string, at: nat, end: nat)
    requires WellFormed(Conversion(d)) && d.conv == [c] && (c == 'd' || c == 'i') && args != [] && word == args[0]
    requires '+' !in d.flags && ' ' !in d.flags
    ensures RendersAs(d, args, texts, text, 1) && ReadsAs(text, ToI32(word), at, end)
  {
    var k := NumberIsRendered(d, c, args, texts);
    text, at, end := TextOf(k), k.l + |k.sign|, k.l + |k.sign| + k.z + |k.ds|;
    DecimalIsRead(k, c, d.flags, word, at, end);
    assert ReadsAs(text, ToI32(word), at, end);
  }

  /** `%c`: the character of the low byte, behind spaces, or with '-' before them. */
  lemma CharIsRendered(d: Directive, args: seq<int>, texts: map<int, string>)
    requires WellFormed(Conversion(d)) && d.conv == "c" && args != []
    ensures var spaces, c := Repeat(' ', WidthOf(d) - 1), [(args[0] % 256) as char];
            RendersAs(d, args, texts, if '-' in d.flags then c + spaces else spaces + c, 1)
  {
    var spaces, c := Repeat(' ', WidthOf(d) - 1), [(args[0] % 256) as char];
    AmountIs(d.width, -1);
    MeaningOf(d, 'c', args, texts);
    MeaningIsRendered(d, args, texts, if '-' in d.flags then c + spaces else spaces + c, 1);
  }

  lemma StringIsPrinted(width: int, precision: int, f: Flags, args: seq<int>, texts: map<int, string>, s: string)
    requires args != [] && if args[0] == 0 then s == "<NULL>" else args[0] in texts && s == texts[args[0]]
    ensures Printed('s', width, precision, f, args, texts) == Some(Piece(Padded(Cut(s, precision), width, f.left), 1))
  {
  }

  /** `%s`: the string, no more of it than the precision allows, behind spaces, or with '-' before them. */
  lemma StringIsRendered(d: Directive, args: seq<int>, texts: map<int, string>, s: string)
    requires WellFormed(Conversion(d)) && d.conv == "s"
    requires args != [] && if args[0] == 0 then s == "<NULL>" else args[0] in texts && s == texts[args[0]]
    ensures var cut := if 0 <= PrecisionOf(d) < |s| then s[..PrecisionOf(d)] else s;
            var spaces := Repeat(' ', WidthOf(d) - |cut|);
            RendersAs(d, args, texts, if '-' in d.flags then cut + spaces else spaces + cut, 1)
  {
    var width, n, f := Amount(d.width, -1), PrecisionOf(d), FlagsOf(d.flags);
    AmountIs(d.width, -1);
    MeaningOf(d, 's', args, texts);
    StringIsPrinted(width, n, f, args, texts, s);
    var text := Padded(Cut(s, n), width, f.left);
    MeaningIsRendered(d, args, texts, text, 1);
  }

  /** A format that ends within a directive prints its percent sign. */
  lemma CutOffIsRendered(d: Directive, args: seq<int>, texts: map<int, string>)
    requires d.conv == ""
    ensures RendersAs(d, args, texts, "%", 0)
  {
    MeaningIsRendered(d, args, texts, "%", 0);
  }

  /** `%%` prints one percent sign and `%n` nothing; a letter that is no conversion is printed behind its percent sign. */
  lemma OthersAreRendered(d: Directive, c: char, args: seq<int>, texts: map<int, string>)
    requires d.conv == [c] && !TakesStar(d)
    ensures c == 'n' && args != [] ==> RendersAs(d, args, texts, "", 1)
    ensures c == '%' ==> RendersAs(d, args, texts, "%", 0)
    ensures c !in "diuoxXpcsn%" ==> RendersAs(d, args, texts, "%" + [c], 0)
  {
    if c == 'n' {
      if args != [] {
        MeaningIsRendered(d, args, texts, "", 1);
      }
    } else if c == '%' {
      MeaningIsRendered(d, args, texts, "%", 0);
    } else if c !in "diuoxXpcsn%" {
      MeaningIsRendered(d, args, texts, "%" + [c], 0);
    }
  }
}
