/** The settings table and the flash key of each of its slots: `get_nvs_key_name`. */
module NvsKeys {
  import opened Numerals

  datatype Kind = Str | U16 | I32 | U64 | Bool

  datatype Value = StrV(s: string) | U16V(n: nat) | I32V(i: int) | U64V(m: nat) | BoolV(b: bool)
  {
    function Kind(): Kind {
      match this
      case StrV(_) => Str
      case U16V(_) => U16
      case I32V(_) => I32
      case U64V(_) => U64
      case BoolV(_) => Bool
    }
  }

  datatype Setting = Setting(name: string, kind: Kind, arraySize: nat, default: Value)
  {
    /** The number of values a setting holds. */
    function Count(): nat {
      if arraySize > 0 then arraySize else 1
    }
  }

  type Table = seq<Setting>

  /** Flash keys hold at most 15 characters. */
  const KEY_CHARS: nat := 15

  function DigitChar(d: nat): char
    requires d < 10
  {
    (48 + d) as char
  }

  /** `n` in decimal, padded with zeros to `width`. */
  function Padded(n: nat, width: nat): (t: string)
    ensures t != ""
  {
    if n < 10 && width <= 1 then [DigitChar(n)]
    else Padded(n / 10, if width > 0 then width - 1 else 0) + [DigitChar(n % 10)]
  }

  /** The number of decimal digits of `t`, counted up to five. */
  function Width(t: nat, width: nat): nat
    decreases t
  {
    if t >= 10 && width < 5 then Width(t / 10, width + 1) else width
  }

  function FullName(s: Setting, index: nat): string {
    if s.arraySize > 0 then s.name + "_" + Padded(index + 1, Width(s.arraySize - 1, 1)) else s.name
  }

  function KeyName(s: Setting, index: nat): string {
    var t := FullName(s, index);
    if |t| <= KEY_CHARS then t else t[..KEY_CHARS]
  }

  ghost predicate IsSlot(table: Table, k: nat, i: nat) {
    k < |table| && i < table[k].Count()
  }

  ghost predicate IsPrefix(a: string, b: string) {
    |a| <= |b| && b[..|a|] == a
  }

  /** What the table of the firmware satisfies: defaults have their setting's type, keys fit,
      and no name clashes, not even one name with the stem of an indexed one. */
  ghost predicate WellFormed(table: Table) {
    (forall k :: 0 <= k < |table| ==> table[k].default.Kind() == table[k].kind)
    && (forall k: nat, i: nat :: IsSlot(table, k, i) ==> |FullName(table[k], i)| <= KEY_CHARS)
    && (forall k, l :: 0 <= k < l < |table| ==> NamesApart(table[k], table[l]))
  }

  ghost predicate NamesApart(s: Setting, t: Setting) {
    s.name != t.name
    && (s.arraySize > 0 ==> !IsPrefix(s.name + "_", t.name + "_"))
    && (t.arraySize > 0 ==> !IsPrefix(t.name + "_", s.name + "_"))
  }

  /** The number a run of decimal digits writes. */
  ghost function Number(t: string): int {
    if t == "" then 0 else Number(t[..|t| - 1]) * 10 + (t[|t| - 1] as int - 48)
  }

  lemma {:induction false} NumberOfPadded(n: nat, width: nat)
    ensures Number(Padded(n, width)) == n
    decreases n, width
  {
    if n < 10 && width <= 1 {
      assert [DigitChar(n)][..0] == "";
    } else {
      NumberOfPadded(n / 10, if width > 0 then width - 1 else 0);
      var t := Padded(n / 10, if width > 0 then width - 1 else 0);
      assert (t + [DigitChar(n % 10)])[..|t|] == t;
    }
  }

  /** The key of a slot determines the slot. */
  lemma KeysDistinct(table: Table, k: nat, i: nat, l: nat, j: nat)
    requires WellFormed(table) && IsSlot(table, k, i) && IsSlot(table, l, j)
    requires KeyName(table[k], i) == KeyName(table[l], j)
    ensures k == l && i == j
  {
    hide Padded, Width;
    var s, t := table[k], table[l];
    assert FullName(s, i) == FullName(t, j);
    if k == l {
      if s.arraySize > 0 {
        SameStem(s.name, Padded(i + 1, Width(s.arraySize - 1, 1)), Padded(j + 1, Width(s.arraySize - 1, 1)));
        NumberOfPadded(i + 1, Width(s.arraySize - 1, 1));
        NumberOfPadded(j + 1, Width(s.arraySize - 1, 1));
      }
    } else {
      assert NamesApart(s, t) || NamesApart(t, s);
      StemsClash(s, i, t, j);
    }
  }

  lemma SameStem(stem: string, a: string, b: string)
    requires stem + "_" + a == stem + "_" + b
    ensures a == b
  {
    assert a == (stem + "_" + a)[|stem| + 1..];
    assert b == (stem + "_" + b)[|stem| + 1..];
  }

  lemma StemsClash(s: Setting, i: nat, t: Setting, j: nat)
    requires FullName(s, i) == FullName(t, j)
    ensures !NamesApart(s, t) && !NamesApart(t, s)
  {
    hide Padded, Width;
    var f := FullName(s, i);
    var p, q := s.name + "_", t.name + "_";
    if s.arraySize > 0 {
      assert f[..|p|] == p;
    }
    if t.arraySize > 0 {
      assert f[..|q|] == q;
    }
    if s.arraySize > 0 && t.arraySize > 0 {
      if |p| <= |q| {
        assert q[..|p|] == f[..|q|][..|p|] == f[..|p|];
      } else {
        assert p[..|q|] == f[..|p|][..|q|] == f[..|q|];
      }
    } else if s.arraySize > 0 {
      assert f == t.name && q[..|p|] == f[..|p|];
    } else if t.arraySize > 0 {
      assert f == s.name && p[..|q|] == f[..|q|];
    }
  }

  /** How long a padded numeral is: as long as asked, or as long as the number needs. */
  lemma {:induction false} PaddedLength(n: nat, width: nat)
    ensures var t := Padded(n, width);
      |t| >= width && n < Pow(10, |t|) && (|t| > width && |t| > 1 ==> n >= Pow(10, |t| - 1))
    decreases n, width
  {
    if n < 10 && width <= 1 {
      assert Pow(10, 1) == 10 * Pow(10, 0);
    } else {
      var w := if width > 0 then width - 1 else 0;
      PaddedLength(n / 10, w);
      var k := |Padded(n / 10, w)|;
      PowStep(10, k);
      if k > 1 {
        PowStep(10, k - 1);
      } else {
        assert Pow(10, 1) == 10 * Pow(10, 0);
      }
    }
  }

  /** The width is the number of decimal digits, but five at most. */
  lemma {:induction false} WidthIsDigits(t: nat, width: nat)
    requires 1 <= width <= 5
    ensures var w := Width(t, width);
      width <= w <= 5 && (w < 5 ==> t < Pow(10, w - width + 1)) && (w > width ==> t >= Pow(10, w - width))
    decreases t
  {
    hide Pow;
    PowOne();
    if t >= 10 && width < 5 {
      var w := Width(t / 10, width + 1);
      WidthIsDigits(t / 10, width + 1);
      PowStep(10, w - width);
      if w > width + 1 {
        PowStep(10, w - width - 1);
      }
    }
  }

  lemma PowOne()
    ensures Pow(10, 0) == 1 && Pow(10, 1) == 10
  {
    assert Pow(10, 1) == 10 * Pow(10, 0);
  }

  /** The name of an indexed value: the setting's name, an underscore and the index counted from one, as long as
      the number needs and no shorter than the largest index counted from zero, up to five digits. */
  lemma IndexedName(s: Setting, index: nat)
    requires s.arraySize > 0
    ensures var f, last := FullName(s, index), s.arraySize - 1;
      var stem := |s.name| + 1;
      stem < |f| && f[..stem] == s.name + "_" && Number(f[stem..]) == index + 1
      && var n := |f| - stem;
        index + 1 < Pow(10, n)
        && (last < Pow(10, n) || n >= 5)
        && (n > 1 ==> index + 1 >= Pow(10, n - 1) || (n <= 5 && last >= Pow(10, n - 1)))
  {
    hide Padded, Width, Pow, Number;
    var last := s.arraySize - 1;
    var w := Width(last, 1);
    var p := Padded(index + 1, w);
    var stem := s.name + "_";
    NumberOfPadded(index + 1, w);
    PaddedLength(index + 1, w);
    WidthIsDigits(last, 1);
    assert (stem + p)[..|stem|] == stem && (stem + p)[|stem|..] == p;
    if w < 5 {
      PowMonotone(10, w, |p|);
    }
  }
}
