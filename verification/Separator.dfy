/**
 What the typewriter may put on the scroll: the boot separator and inkable keys. Both keep every
 marker first on its line.
 */
module Separator {
  import opened Bytes
  import opened Utf8
  import opened Markers

  /** A clock reading that passed the range checks of the driver. */
  datatype Date = Date(year: nat, month: nat, day: nat, hour: nat, minute: nat)

  function MonthName(month: nat): string {
    if month == 1 then "January" else if month == 2 then "February" else if month == 3 then "March"
    else if month == 4 then "April" else if month == 5 then "May" else if month == 6 then "June"
    else if month == 7 then "July" else if month == 8 then "August" else if month == 9 then "September"
    else if month == 10 then "October" else if month == 11 then "November" else if month == 12 then "December"
    else "Unknown"
  }

  /** `{}` of an unsigned number. */
  function Decimal(n: nat): string {
    if n < 10 then [Digit(n)] else Decimal(n / 10) + [Digit(n % 10)]
  }

  function Digit(d: nat): char
    requires d < 10
  {
    ('0' as int + d) as char
  }

  /** `{:02}` of an unsigned number. */
  function TwoDigits(n: nat): string {
    if n < 10 then "0" + Decimal(n) else Decimal(n)
  }

  /** The header line without its newline. */
  function Stamp(date: Date): string {
    "\U{2014} " + Decimal(date.day) + " " + MonthName(date.month) + " " + Decimal(date.year) + ", "
    + TwoDigits(date.hour) + ":" + TwoDigits(date.minute) + " \U{2014}"
  }

  /** The separator appended at boot to a scroll whose text is `text`. */
  function SeparatorFor(text: string, date: Date): string {
    (if text == "" then "" else if text[|text| - 1] != NEWLINE then [NEWLINE, NEWLINE] else [NEWLINE])
    + [MARKER] + Stamp(date) + [NEWLINE]
  }

  /** The pushes of `kernel_main`. */
  method BuildSeparator(text: string, date: Date) returns (separator: string)
    ensures separator == SeparatorFor(text, date)
  {
    hide Stamp;
    separator := "";
    if text != "" {
      if text[|text| - 1] != NEWLINE {
        separator := separator + [NEWLINE];
      }
      separator := separator + [NEWLINE];
    }
    separator := separator + [MARKER];
    separator := separator + Stamp(date) + [NEWLINE];
  }

  /** Neither a marker nor a newline anywhere. */
  ghost predicate Plain(s: string) {
    forall i :: 0 <= i < |s| ==> s[i] != MARKER && s[i] != NEWLINE
  }

  lemma PlainConcat(a: string, b: string)
    requires Plain(a) && Plain(b)
    ensures Plain(a + b)
  {}

  lemma {:induction false} DecimalPlain(n: nat)
    ensures Plain(Decimal(n)) && Decimal(n) != ""
    decreases n
  {
    if n >= 10 {
      DecimalPlain(n / 10);
    }
  }

  lemma TwoDigitsPlain(n: nat)
    ensures Plain(TwoDigits(n))
  {
    DecimalPlain(n);
  }

  lemma MonthPlain(month: nat)
    ensures Plain(MonthName(month))
  {
    if month <= 2 {
    } else if month <= 4 {
    } else if month <= 6 {
    } else if month <= 8 {
    } else if month <= 10 {
    }
  }

  lemma StampPlain(date: Date)
    ensures Plain(Stamp(date))
  {
    DecimalPlain(date.day);
    MonthPlain(date.month);
    DecimalPlain(date.year);
    TwoDigitsPlain(date.hour);
    TwoDigitsPlain(date.minute);
    hide Decimal, TwoDigits, MonthName;
    var s1 := "\U{2014} " + Decimal(date.day);
    PlainConcat("\U{2014} ", Decimal(date.day));
    PlainConcat(s1, " ");
    PlainConcat(s1 + " ", MonthName(date.month));
    var s2 := s1 + " " + MonthName(date.month);
    PlainConcat(s2, " ");
    PlainConcat(s2 + " ", Decimal(date.year));
    var s3 := s2 + " " + Decimal(date.year);
    PlainConcat(s3, ", ");
    PlainConcat(s3 + ", ", TwoDigits(date.hour));
    var s4 := s3 + ", " + TwoDigits(date.hour);
    PlainConcat(s4, ":");
    PlainConcat(s4 + ":", TwoDigits(date.minute));
    PlainConcat(s4 + ":" + TwoDigits(date.minute), " \U{2014}");
  }

  /** The separator closes whatever line was open, and its marker leads the next. */
  lemma SeparatorMarked(text: string, date: Date)
    ensures var s := SeparatorFor(text, date);
            && MarkedText(s) && s != "" && s[|s| - 1] == NEWLINE
            && (s[0] == MARKER <==> text == "")
  {
    StampPlain(date);
    hide Stamp;
  }

  /**
   In front of the header the separator closes an open line and leaves one blank line, but nothing on an
   empty scroll; behind its marker there is one line.
   */
  lemma SeparatorShape(text: string, date: Date) returns (k: nat)
    ensures var s := SeparatorFor(text, date);
            && k < |s| && s[k] == '\U{1E}' && s[k + 1..] == Stamp(date) + "\n"
            && (text == "" <==> k == 0)
            && (text != "" ==> k == (if text[|text| - 1] == '\n' then 1 else 2))
            && (text != "" ==> (text + s[..k])[|text| + k - 2..] == "\n\n")
            && '\n' !in Stamp(date) && '\U{1E}' !in Stamp(date)
  {
    StampPlain(date);
    hide Stamp;
    k := if text == "" then 0 else if text[|text| - 1] == '\n' then 1 else 2;
  }

  // ------------------------------------------------- the stamp tells the date

  /** The number a string of digits stands for. */
  function Number(s: string): int {
    if s == "" then 0 else 10 * Number(s[..|s| - 1]) + (s[|s| - 1] as int - '0' as int)
  }

  ghost predicate Digits(s: string) {
    s != "" && forall c <- s :: '0' <= c <= '9'
  }

  /** Numbers are written in decimal, without leading zeros. */
  lemma {:induction false} DecimalExact(n: nat)
    ensures Digits(Decimal(n)) && Number(Decimal(n)) == n
    ensures |Decimal(n)| > 1 ==> Decimal(n)[0] != '0'
    decreases n
  {
    if n >= 10 {
      DecimalExact(n / 10);
      assert Decimal(n)[..|Decimal(n)| - 1] == Decimal(n / 10);
    } else {
      assert Decimal(n)[..0] == "";
    }
  }

  /** Hours and minutes have at least two digits. */
  lemma TwoDigitsExact(n: nat)
    ensures Digits(TwoDigits(n)) && Number(TwoDigits(n)) == n && |TwoDigits(n)| >= 2
    ensures n < 100 ==> |TwoDigits(n)| == 2
  {
    DecimalExact(n);
    if n < 10 {
      assert TwoDigits(n)[..1] == "0" && "0"[..0] == "";
      assert Decimal(n)[..0] == "";
    } else if n < 100 {
      assert Decimal(n) == Decimal(n / 10) + [Digit(n % 10)] && |Decimal(n / 10)| == 1;
    } else {
      DecimalExact(n / 10);
    }
  }

  /** The month an English month name stands for, told by its second and third letters. */
  function MonthOf(name: string): nat
    requires |name| >= 3
  {
    match (name[1], name[2])
    case ('a', 'n') => 1
    case ('e', 'b') => 2
    case ('a', 'r') => 3
    case ('p', 'r') => 4
    case ('a', 'y') => 5
    case ('u', 'n') => 6
    case ('u', 'l') => 7
    case ('u', 'g') => 8
    case ('e', 'p') => 9
    case ('c', 't') => 10
    case ('o', 'v') => 11
    case ('e', 'c') => 12
    case _ => 0
  }

  lemma MonthExact(month: nat)
    requires 1 <= month <= 12
    ensures |MonthName(month)| >= 3 && MonthOf(MonthName(month)) == month
  {}

  const MONTHS: seq<string> :=
    ["January", "February", "March", "April", "May", "June", "July", "August", "September", "October", "November",
     "December"]

  /** The names are those of the driver's table, and anything else is unknown. */
  lemma MonthInTable(month: nat)
    ensures MonthName(month) == if 1 <= month <= 12 then MONTHS[month - 1] else "Unknown"
  {}

  lemma NoSpaceInMonth(month: nat)
    ensures ' ' !in MonthName(month)
  {}

  /** Two strings cut at the same character, which neither first part has, have the same parts. */
  lemma CutUnique(a: string, b: string, a': string, b': string, c: char)
    requires a + [c] + b == a' + [c] + b' && c !in a && c !in a'
    ensures a == a' && b == b'
  {
    var s := a + [c] + b;
    assert s[|a|] == c && s[|a'|] == c;
    assert forall i :: 0 <= i < |a| ==> s[i] == a[i] != c;
    assert forall i :: 0 <= i < |a'| ==> s[i] == a'[i] != c;
    assert a == s[..|a|] && a' == s[..|a'|] && b == s[|a| + 1..] && b' == s[|a'| + 1..];
  }

  /** The fields of a stamp, from the first. */
  lemma StampFields(date: Date)
    ensures Stamp(date)
         == "\U{2014} " + (Decimal(date.day) + [' '] + (MonthName(date.month) + [' '] + (Decimal(date.year) + [',']
              + (" " + (TwoDigits(date.hour) + [':'] + (TwoDigits(date.minute) + [' '] + "\U{2014}"))))))
  {
    hide Decimal, TwoDigits, MonthName;
    GroupFields("\U{2014} ", Decimal(date.day), MonthName(date.month), Decimal(date.year), TwoDigits(date.hour),
                TwoDigits(date.minute));
    assert ", " == [','] + " " && " \U{2014}" == [' '] + "\U{2014}";
  }

  lemma GroupFields(s: string, d: string, m: string, y: string, h: string, n: string)
    ensures s + d + " " + m + " " + y + ([','] + " ") + h + ":" + n + ([' '] + "\U{2014}")
         == s + (d + [' '] + (m + [' '] + (y + [','] + (" " + (h + [':'] + (n + [' '] + "\U{2014}"))))))
  {}

  /** Dates with a valid month have the same stamp only if they are the same. */
  lemma StampExact(a: Date, b: Date)
    requires 1 <= a.month <= 12 && 1 <= b.month <= 12 && Stamp(a) == Stamp(b)
    ensures a == b
  {
    StampFields(a);
    StampFields(b);
    hide Stamp;
    DecimalExact(a.day);
    DecimalExact(b.day);
    DecimalExact(a.year);
    DecimalExact(b.year);
    TwoDigitsExact(a.hour);
    TwoDigitsExact(b.hour);
    TwoDigitsExact(a.minute);
    TwoDigitsExact(b.minute);
    NoSpaceInMonth(a.month);
    NoSpaceInMonth(b.month);
    MonthExact(a.month);
    MonthExact(b.month);
    hide Decimal, TwoDigits, MonthName, MonthOf, Number;
    SameFields(Decimal(a.day), MonthName(a.month), Decimal(a.year), TwoDigits(a.hour), TwoDigits(a.minute),
               Decimal(b.day), MonthName(b.month), Decimal(b.year), TwoDigits(b.hour), TwoDigits(b.minute),
               "\U{2014} ", "\U{2014}");
  }

  lemma SameFields(d: string, m: string, y: string, h: string, n: string,
                   d': string, m': string, y': string, h': string, n': string, first: string, last: string)
    requires first + (d + [' '] + (m + [' '] + (y + [','] + (" " + (h + [':'] + (n + [' '] + last))))))
          == first + (d' + [' '] + (m' + [' '] + (y' + [','] + (" " + (h' + [':'] + (n' + [' '] + last))))))
    requires ' ' !in d && ' ' !in d' && ' ' !in m && ' ' !in m' && ',' !in y && ',' !in y'
    requires ':' !in h && ':' !in h' && ' ' !in n && ' ' !in n'
    ensures d == d' && m == m' && y == y' && h == h' && n == n'
  {
    var t, t' := n + [' '] + last, n' + [' '] + last;
    var u, u' := h + [':'] + t, h' + [':'] + t';
    var v, v' := y + [','] + (" " + u), y' + [','] + (" " + u');
    var x, x' := m + [' '] + v, m' + [' '] + v';
    SameTail(first, d + [' '] + x, d' + [' '] + x');
    CutUnique(d, x, d', x', ' ');
    CutUnique(m, v, m', v', ' ');
    CutUnique(y, " " + u, y', " " + u', ',');
    SameTail(" ", u, u');
    CutUnique(h, t, h', t', ':');
    CutUnique(n, last, n', last, ' ');
  }

  lemma SameTail(a: string, b: string, b': string)
    requires a + b == a + b'
    ensures b == b'
  {
    assert b == (a + b)[|a|..];
  }

  lemma OneDigit(n: nat)
    requires n < 10
    ensures Decimal(n) == [Digit(n)]
  {}

  lemma NextDigit(n: nat, d: nat)
    requires n > 0 && d < 10
    ensures Decimal(10 * n + d) == Decimal(n) + [Digit(d)]
  {
    assert (10 * n + d) / 10 == n && (10 * n + d) % 10 == d;
  }

  /** A year of the twenties. */
  lemma YearDigits(d: nat)
    requires d < 10
    ensures Decimal(2020 + d) == ['2', '0', '2', Digit(d)]
  {
    hide Decimal;
    OneDigit(2);
    NextDigit(2, 0);
    NextDigit(20, 2);
    NextDigit(202, d);
  }

  lemma FromFields(date: Date, d: string, m: string, y: string, h: string, n: string)
    requires Decimal(date.day) == d && MonthName(date.month) == m && Decimal(date.year) == y
    requires TwoDigits(date.hour) == h && TwoDigits(date.minute) == n
    ensures Stamp(date) == "\U{2014} " + d + " " + m + " " + y + ", " + h + ":" + n + " \U{2014}"
  {
    hide Decimal, TwoDigits, MonthName;
  }

  /** The fields of the example in the source, and those of one with single digits. */
  lemma ExampleFields()
    ensures Decimal(10) == "10" && MonthName(6) == "June" && Decimal(2026) == "2026"
    ensures TwoDigits(14) == "14" && TwoDigits(32) == "32"
    ensures Decimal(5) == "5" && MonthName(1) == "January" && Decimal(2027) == "2027"
    ensures TwoDigits(7) == "07" && TwoDigits(3) == "03"
  {
    hide Decimal;
    OneDigit(1);
    OneDigit(3);
    OneDigit(5);
    OneDigit(7);
    YearDigits(6);
    YearDigits(7);
    NextDigit(1, 0);
    NextDigit(1, 4);
    NextDigit(3, 2);
  }

  /** The format, by the example in the source. */
  lemma StampExample()
    ensures Stamp(Date(2026, 6, 10, 14, 32)) == "\U{2014} 10 June 2026, 14:32 \U{2014}"
  {
    ExampleFields();
    hide Decimal, Stamp, TwoDigits, MonthName;
    FromFields(Date(2026, 6, 10, 14, 32), "10", "June", "2026", "14", "32");
  }

  /** And by one with single digits. */
  lemma StampPadded()
    ensures Stamp(Date(2027, 1, 5, 7, 3)) == "\U{2014} 5 January 2027, 07:03 \U{2014}"
  {
    ExampleFields();
    hide Decimal, Stamp, TwoDigits, MonthName;
    FromFields(Date(2027, 1, 5, 7, 3), "5", "January", "2027", "07", "03");
  }

  /** `char::is_control`: general category Cc. */
  predicate IsControl(c: char) {
    (c as int) < 0x20 || 0x7F <= c as int < 0xA0
  }

  datatype Key = PageUp | PageDown | F12 | OtherRaw | Unicode(c: char)

  /** The whole input policy. */
  function Inkable(key: Key): Option<char> {
    match key
    case Unicode(c) =>
      if c == '\n' || c == '\r' then Some(NEWLINE) else if !IsControl(c) then Some(c) else None
    case _ => None
  }

  /** Enter makes a newline under either of its codes, every printable character itself, and no key a marker. */
  lemma InkableExact(key: Key)
    ensures Inkable(key).Some? <==> key.Unicode? && (key.c in {'\n', '\r'} || !IsControl(key.c))
    ensures Inkable(key).Some? ==> Inkable(key).value != MARKER
    ensures Inkable(key).Some? ==>
              if key.c as int in {10, 13} then Inkable(key).value == '\n'
              else Inkable(key).value == key.c && (0x20 <= key.c as int < 0x7F || 0xA0 <= key.c as int)
  {}

  /** What a key puts on the scroll: one to four bytes, the last of them not zero. */
  lemma InkableBytes(key: Key)
    requires Inkable(key).Some?
    ensures var bytes := AsBytes([Inkable(key).value]); 1 <= |bytes| <= 4 && bytes[|bytes| - 1] != 0
  {
    var c := Inkable(key).value;
    assert [c][1..] == "" && AsBytes([c]) == EncodeChar(c);
  }
}
