/** Reverse DNS names (section 3.5 of RFC 1035) and the search for the zone a PTR record goes to. */
module ReverseDns {
  import opened Ipv4
  import opened Sequences
  import opened Text

  /** A fully qualified name: every label followed by a dot. */
  function Dotted(labels: seq<string>): string {
    if labels == [] then "" else Dotted(labels[..|labels| - 1]) + labels[|labels| - 1] + "."
  }

  function Octet(x: Addr, i: nat): int
    requires i < 4
  {
    if i == 0 then x / 0x100_0000 else if i == 1 then x / 0x1_0000 % 256 else if i == 2 then x / 256 % 256 else x % 256
  }

  function OctetLabel(x: Addr, i: nat): string
    requires i < 4
  {
    Decimal(Octet(x, i))
  }

  const ARPA: seq<string> := ["in-addr", "arpa"]

  /** The labels of the first n octets, last one first. */
  function OctetLabels(x: Addr, n: nat): seq<string>
    requires n <= 4
  {
    if n == 0 then [] else [OctetLabel(x, n - 1)] + OctetLabels(x, n - 1)
  }

  function PtrName(x: Addr): string { Dotted(OctetLabels(x, 4) + ARPA) }

  /** The zone of a /8, /16 or /24; any other prefix has none. */
  function ReverseZone(c: Cidr): Option<string> {
    if c.bits == 8 then Some(Dotted(OctetLabels(Network(c), 1) + ARPA))
    else if c.bits == 16 then Some(Dotted(OctetLabels(Network(c), 2) + ARPA))
    else if c.bits == 24 then Some(Dotted(OctetLabels(Network(c), 3) + ARPA))
    else None
  }

  predicate HasSuffix(s: string, t: string) { |t| <= |s| && s[|s| - |t|..] == t }

  // ---- suffixes and labels ---------------------------------------------------------------------------

  predicate Plain(s: string) { '.' !in s }

  ghost predicate AllPlain(labels: seq<string>) { forall i :: 0 <= i < |labels| ==> Plain(labels[i]) }

  lemma DottedEnds(labels: seq<string>)
    ensures labels != [] ==> Dotted(labels) != "" && Dotted(labels)[|Dotted(labels)| - 1] == '.'
  {
  }

  lemma SuffixAt(s: string, t: string, k: nat)
    requires HasSuffix(s, t) && k < |t|
    ensures s[|s| - |t| + k] == t[k]
  {
    assert s[|s| - |t|..][k] == t[k];
  }

  /** Behind a dot, a dot-free last label is determined by the text. */
  lemma LastLabelPeels(b: string, u: string, a: string, v: string)
    requires Plain(u) && Plain(v) && a != "" && a[|a| - 1] == '.' && (b == "" || b[|b| - 1] == '.')
    ensures HasSuffix(b + u, a + v) <==> u == v && HasSuffix(b, a)
  {
    var s, t := b + u, a + v;
    if HasSuffix(s, t) {
      if |v| < |u| {
        SuffixAt(s, t, |a| - 1);
        assert false;
      }
      if |v| > |u| {
        SuffixAt(s, t, |t| - |u| - 1);
        assert false;
      }
      assert u == s[|s| - |u|..] && v == t[|t| - |v|..];
      assert s[|s| - |t|..][|t| - |v|..] == s[|s| - |v|..];
      assert b[|b| - |a|..] == s[|s| - |t|..][..|a|] == t[..|a|] == a;
    }
    if u == v && HasSuffix(b, a) {
      assert s[|s| - |t|..] == b[|b| - |a|..] + u;
    }
  }

  lemma DropDot(s: string, t: string)
    ensures HasSuffix(s + ".", t + ".") <==> HasSuffix(s, t)
  {
    if |t| <= |s| {
      assert (s + ".")[|s| - |t|..] == s[|s| - |t|..] + ".";
    }
    if HasSuffix(s + ".", t + ".") && |t| <= |s| {
      assert s[|s| - |t|..] == (s[|s| - |t|..] + ".")[..|t|] == (t + ".")[..|t|] == t;
    }
  }

  lemma DottedPeels(l: seq<string>, m: seq<string>)
    requires AllPlain(l) && AllPlain(m) && l != [] && m != []
    ensures
      var i, j := |l| - 1, |m| - 1;
      HasSuffix(Dotted(l), "." + Dotted(m)) <==> l[i] == m[j] && HasSuffix(Dotted(l[..i]), "." + Dotted(m[..j]))
  {
    var i, j := |l| - 1, |m| - 1;
    DottedEnds(l[..i]);
    DottedEnds(m[..j]);
    assert Plain(l[i]) && Plain(m[j]);
    NamesPeel(Dotted(l[..i]), l[i], Dotted(m[..j]), m[j]);
    assert Dotted(l) == Dotted(l[..i]) + l[i] + "." && Dotted(m) == Dotted(m[..j]) + m[j] + ".";
  }

  lemma NamesPeel(b: string, u: string, a: string, v: string)
    requires Plain(u) && Plain(v) && (a == "" || a[|a| - 1] == '.') && (b == "" || b[|b| - 1] == '.')
    ensures HasSuffix(b + u + ".", "." + (a + v + ".")) <==> u == v && HasSuffix(b, "." + a)
  {
    Regroup(a, v);
    DropDot(b + u, "." + a + v);
    LastLabelPeels(b, u, "." + a, v);
  }

  lemma Regroup(a: string, v: string)
    ensures "." + (a + v + ".") == ("." + a + v) + "."
  {
  }

  /** A dotted name ends in "." plus another exactly when its labels end, properly, in the other's. */
  lemma {:induction false} SuffixIsLabelSuffix(l: seq<string>, m: seq<string>)
    requires AllPlain(l) && AllPlain(m)
    ensures HasSuffix(Dotted(l), "." + Dotted(m)) <==> |m| < |l| && l[|l| - |m|..] == m
    decreases |m|
  {
    if l == [] {
    } else if m == [] {
      DottedEnds(l);
      assert "." + Dotted(m) == ".";
      assert l[|l|..] == [];
    } else {
      DottedPeels(l, m);
      SuffixIsLabelSuffix(l[..|l| - 1], m[..|m| - 1]);
      LabelSuffixPeels(l, m);
    }
  }

  lemma LabelSuffixPeels(l: seq<string>, m: seq<string>)
    requires l != [] && m != []
    ensures
      var i, j := |l| - 1, |m| - 1;
      (|m| < |l| && l[|l| - |m|..] == m) <==> (l[i] == m[j] && j < i && l[..i][i - j..] == m[..j])
  {
    var i, j := |l| - 1, |m| - 1;
    if j < i {
      assert l[i - j..] == l[..i][i - j..] + [l[i]];
      assert m == m[..j] + [m[j]];
    }
  }

  // ---- addresses and zones -----------------------------------------------------------------------------

  lemma {:induction false} OctetLabelsArePlain(x: Addr, n: nat)
    requires n <= 4
    ensures |OctetLabels(x, n)| == n && AllPlain(OctetLabels(x, n)) && AllPlain(OctetLabels(x, n) + ARPA)
  {
    assert Plain(ARPA[0]) && Plain(ARPA[1]);
    if n > 0 {
      OctetLabelsArePlain(x, n - 1);
      var d := OctetLabel(x, n - 1);
      assert Plain(d) by {
        assert forall i :: 0 <= i < |d| ==> IsDigit(d[i]);
      }
    }
  }

  ghost predicate SameOctets(x: Addr, y: Addr, n: nat)
    requires n <= 4
  {
    forall i :: 0 <= i < n ==> Octet(x, i) == Octet(y, i)
  }

  lemma {:induction false} LabelsMeanOctets(x: Addr, y: Addr, n: nat)
    requires n <= 4
    ensures OctetLabels(x, n) == OctetLabels(y, n) <==> SameOctets(x, y, n)
  {
    if n > 0 {
      LabelsMeanOctets(x, y, n - 1);
      var a, b := OctetLabels(x, n), OctetLabels(y, n);
      assert a[0] == OctetLabel(x, n - 1) && b[0] == OctetLabel(y, n - 1);
      assert a[1..] == OctetLabels(x, n - 1) && b[1..] == OctetLabels(y, n - 1);
      if a == b {
        DecimalIsInjective(Octet(x, n - 1), Octet(y, n - 1));
      }
    }
  }

  lemma {:induction false} LabelsTail(x: Addr, n: nat)
    requires n <= 4
    ensures |OctetLabels(x, 4)| == 4 && OctetLabels(x, 4)[4 - n..] == OctetLabels(x, n)
  {
    assert OctetLabels(x, 1) == [OctetLabel(x, 0)] + OctetLabels(x, 0);
    assert OctetLabels(x, 2) == [OctetLabel(x, 1)] + OctetLabels(x, 1);
    assert OctetLabels(x, 3) == [OctetLabel(x, 2)] + OctetLabels(x, 2);
    assert OctetLabels(x, 4) == [OctetLabel(x, 3)] + OctetLabels(x, 3);
  }

  lemma PowersOfOctets()
    ensures Pow2(8) == 256 && Pow2(16) == 0x1_0000 && Pow2(24) == 0x100_0000
  {
    assert Pow2(8) == 256;
    Pow2Splits(8, 8);
    Pow2Splits(16, 8);
  }

  /** Sharing the leading octets is lying in the same classful block. */
  lemma ClassfulMembership(c: Cidr, x: Addr, n: nat)
    requires 1 <= n <= 3 && c.bits == 8 * n
    ensures Contains(c, x) <==> SameOctets(x, Network(c), n)
  {
    PowersOfOctets();
    ContainsIsInterval(c, x);
    var y := Network(c);
    assert Contains(c, x) <==> x / BlockSize(c) == y / BlockSize(c);
    HighBits(x, y);
  }

  lemma HighBits(x: Addr, y: Addr)
    ensures SameOctets(x, y, 1) <==> x / 0x100_0000 == y / 0x100_0000
    ensures SameOctets(x, y, 2) <==> x / 0x1_0000 == y / 0x1_0000
    ensures SameOctets(x, y, 3) <==> x / 256 == y / 256
  {
    DivOfDiv(x, 256, 256);
    DivOfDiv(y, 256, 256);
    DivOfDiv(x, 0x1_0000, 256);
    DivOfDiv(y, 0x1_0000, 256);
    assert Octet(x, 0) == x / 0x1_0000 / 256 && Octet(y, 0) == y / 0x1_0000 / 256;
    assert SameOctets(x, y, 1) <==> Octet(x, 0) == Octet(y, 0);
    assert SameOctets(x, y, 2) <==> SameOctets(x, y, 1) && Octet(x, 1) == Octet(y, 1);
    assert SameOctets(x, y, 3) <==> SameOctets(x, y, 2) && Octet(x, 2) == Octet(y, 2);
  }

  lemma ZoneLabelsMatch(x: Addr, y: Addr, n: nat)
    requires n <= 3
    ensures HasSuffix(PtrName(x), "." + Dotted(OctetLabels(y, n) + ARPA)) <==> SameOctets(x, y, n)
  {
    var l, m := OctetLabels(x, 4) + ARPA, OctetLabels(y, n) + ARPA;
    OctetLabelsArePlain(x, 4);
    OctetLabelsArePlain(y, n);
    OctetLabelsArePlain(x, n);
    SuffixIsLabelSuffix(l, m);
    LabelsTail(x, n);
    assert l[|l| - |m|..] == OctetLabels(x, n) + ARPA;
    LabelsMeanOctets(x, y, n);
    if OctetLabels(x, n) + ARPA == m {
      assert OctetLabels(x, n) == (OctetLabels(x, n) + ARPA)[..n] == m[..n] == OctetLabels(y, n);
    }
  }

  /** The PTR name of an address ends in "." plus a reverse zone exactly when the address lies in the
      zone's block. */
  lemma ZoneCoversExactlyItsBlock(c: Cidr, x: Addr)
    requires c.bits in {8, 16, 24}
    ensures ReverseZone(c).Some? && (HasSuffix(PtrName(x), "." + ReverseZone(c).value) <==> Contains(c, x))
  {
    var n := c.bits / 8;
    ZoneLabelsMatch(x, Network(c), n);
    ClassfulMembership(c, x, n);
  }

  // ---- the zone search ------------------------------------------------------------------------------------

  predicate Covers(zone: string, ptr: string) {
    HasSuffix(zone, ".in-addr.arpa.") && (ptr == zone || HasSuffix(ptr, "." + zone))
  }

  /** The longest covering zone of the list, or "" when none covers. */
  ghost predicate Longest(zones: seq<string>, ptr: string, target: string) {
    && (target == "" <==> forall i :: 0 <= i < |zones| ==> !Covers(zones[i], ptr))
    && (target != "" ==> target in zones && Covers(target, ptr))
    && (forall i :: 0 <= i < |zones| && Covers(zones[i], ptr) ==> |zones[i]| <= |target|)
  }

  /** Any zone list, any name. */
  method FindZone(zones: seq<string>, ptr: string) returns (target: string)
    ensures Longest(zones, ptr, target)
  {
    target := "";
    for i := 0 to |zones|
      invariant target == "" <==> forall k :: 0 <= k < i ==> !Covers(zones[k], ptr)
      invariant target != "" ==> target in zones && Covers(target, ptr)
      invariant forall k :: 0 <= k < i && Covers(zones[k], ptr) ==> |zones[k]| <= |target|
    {
      if !HasSuffix(zones[i], ".in-addr.arpa.") {
        continue;
      }
      if ptr == zones[i] || HasSuffix(ptr, "." + zones[i]) {
        if |zones[i]| > |target| {
          target := zones[i];
        }
      }
    }
  }

  /** Covering zones of one name are suffixes of it, so the longest is unique. */
  lemma LongestIsUnique(a: string, b: string, ptr: string)
    requires Covers(a, ptr) && Covers(b, ptr) && |a| == |b|
    ensures a == b
  {
    CoverIsSuffix(a, ptr);
    CoverIsSuffix(b, ptr);
  }

  lemma CoverIsSuffix(a: string, ptr: string)
    requires Covers(a, ptr)
    ensures HasSuffix(ptr, a)
  {
    if ptr != a {
      var t := "." + a;
      assert ptr[|ptr| - |a|..] == ptr[|ptr| - |t|..][1..] == t[1..] == a;
    } else {
      assert ptr[0..] == ptr;
    }
  }

  lemma DottedLast(l: seq<string>, end: string)
    ensures Dotted(l + [end]) == Dotted(l) + end + "."
  {
    assert (l + [end])[..|l|] == l;
  }

  lemma {:induction false} DottedConcat(l: seq<string>, m: seq<string>)
    ensures Dotted(l + m) == Dotted(l) + Dotted(m)
    decreases |m|
  {
    if m == [] {
      assert l + m == l;
    } else {
      var front, end := m[..|m| - 1], m[|m| - 1];
      assert m == front + [end];
      assert l + m == (l + front) + [end];
      DottedConcat(l, front);
      DottedLast(l + front, end);
      DottedLast(front, end);
    }
  }

  /** More octets make a longer zone name, for zones covering the same address. */
  lemma ZoneLengthGrows(x: Addr, a: nat, b: nat)
    requires a < b <= 4
    ensures |Dotted(OctetLabels(x, a) + ARPA)| < |Dotted(OctetLabels(x, b) + ARPA)|
    decreases b
  {
    var inner := OctetLabels(x, b - 1) + ARPA;
    assert OctetLabels(x, b) + ARPA == [OctetLabel(x, b - 1)] + inner;
    DottedConcat([OctetLabel(x, b - 1)], inner);
    assert Dotted([OctetLabel(x, b - 1)]) == Dotted([OctetLabel(x, b - 1)][..0]) + OctetLabel(x, b - 1) + ".";
    if a < b - 1 {
      ZoneLengthGrows(x, a, b - 1);
    }
  }

  lemma ZoneOfCovered(c: Cidr, x: Addr, n: nat)
    requires 1 <= n <= 3 && c.bits == 8 * n && Contains(c, x)
    ensures ReverseZone(c) == Some(Dotted(OctetLabels(x, n) + ARPA))
  {
    ClassfulMembership(c, x, n);
    LabelsMeanOctets(x, Network(c), n);
  }

  /** Among the reverse zones of blocks containing an address, a longer name is exactly a longer prefix:
      the search routes the record to the most specific block. */
  lemma LongestZoneIsMostSpecific(c: Cidr, d: Cidr, x: Addr)
    requires c.bits in {8, 16, 24} && d.bits in {8, 16, 24} && Contains(c, x) && Contains(d, x)
    ensures ReverseZone(c).Some? && ReverseZone(d).Some?
    ensures |ReverseZone(c).value| < |ReverseZone(d).value| <==> c.bits < d.bits
  {
    ZoneOfCovered(c, x, c.bits / 8);
    ZoneOfCovered(d, x, d.bits / 8);
    if c.bits < d.bits { ZoneLengthGrows(x, c.bits / 8, d.bits / 8); }
    if d.bits < c.bits { ZoneLengthGrows(x, d.bits / 8, c.bits / 8); }
  }

  lemma ArpaIsDotted()
    ensures Dotted(ARPA) == "in-addr.arpa."
  {
    DottedLast(["in-addr"], "arpa");
    DottedLast([], "in-addr");
    assert [] + ["in-addr"] == ["in-addr"] && ["in-addr"] + ["arpa"] == ARPA;
  }

  lemma DottedFirst(end: string, l: seq<string>)
    ensures Dotted([end] + l) == end + "." + Dotted(l)
  {
    DottedConcat([end], l);
    DottedLast([], end);
    assert [] + [end] == [end];
  }

  /** A name in text: labels before a zone, the zone given with its leading dot. */
  function Under(l: string, zone: string): string { "." + l + zone }

  lemma Unnest(p: string, l: string, zone: string)
    ensures p + Under(l, zone) == p + "." + l + zone
  {
  }

  lemma Unfold(l: string, name: string)
    ensures "." + (l + "." + name) == Under(l, "." + name)
  {
  }

  /** The first n octets of the address in text, each behind a dot, the last one first. */
  function Spelled(x: Addr, n: nat): string
    requires n <= 4
  {
    if n == 0 then ".in-addr.arpa." else Under(OctetLabel(x, n - 1), Spelled(x, n - 1))
  }

  lemma LabelIsSpelled(l: string, labels: seq<string>)
    ensures "." + Dotted([l] + labels) == Under(l, "." + Dotted(labels))
  {
    DottedFirst(l, labels);
    Unfold(l, Dotted(labels));
  }

  lemma {:induction false} LabelsAreSpelled(x: Addr, n: nat)
    requires n <= 4
    ensures "." + Dotted(OctetLabels(x, n) + ARPA) == Spelled(x, n)
  {
    if n == 0 {
      ArpaIsDotted();
      assert OctetLabels(x, 0) + ARPA == ARPA;
    } else {
      LabelsAreSpelled(x, n - 1);
      assert OctetLabels(x, n) + ARPA == [OctetLabel(x, n - 1)] + (OctetLabels(x, n - 1) + ARPA);
      LabelIsSpelled(OctetLabel(x, n - 1), OctetLabels(x, n - 1) + ARPA);
    }
  }

  lemma NameIsSpelled(x: Addr, n: nat)
    requires 1 <= n <= 4
    ensures Dotted(OctetLabels(x, n) + ARPA) == OctetLabel(x, n - 1) + Spelled(x, n - 1)
  {
    LabelsAreSpelled(x, n);
    var s := Dotted(OctetLabels(x, n) + ARPA);
    assert s == ("." + s)[1..] && Spelled(x, n)[1..] == OctetLabel(x, n - 1) + Spelled(x, n - 1);
  }

  lemma Spelling(a: string, b: string, e: string, d: string, end: string)
    ensures b + Under(a, end) == b + "." + a + end
    ensures e + Under(b, Under(a, end)) == e + "." + b + "." + a + end
    ensures d + Under(e, Under(b, Under(a, end))) == d + "." + e + "." + b + "." + a + end
  {
    Unnest(b, a, end);
    Unnest(e, b, Under(a, end));
    Unnest(e + "." + b, a, end);
    Unnest(d, e, Under(b, Under(a, end)));
    Unnest(d + "." + e, b, Under(a, end));
    Unnest(d + "." + e + "." + b, a, end);
  }

  /** The names of an address and of the classful blocks around it, in text. */
  lemma NamesInText(x: Addr, a: string, b: string, e: string, d: string)
    requires a == OctetLabel(x, 0) && b == OctetLabel(x, 1) && e == OctetLabel(x, 2) && d == OctetLabel(x, 3)
    ensures Dotted(OctetLabels(x, 1) + ARPA) == a + ".in-addr.arpa."
    ensures Dotted(OctetLabels(x, 2) + ARPA) == b + "." + a + ".in-addr.arpa."
    ensures Dotted(OctetLabels(x, 3) + ARPA) == e + "." + b + "." + a + ".in-addr.arpa."
    ensures PtrName(x) == d + "." + e + "." + b + "." + a + ".in-addr.arpa."
  {
    NameIsSpelled(x, 1);
    NameIsSpelled(x, 2);
    NameIsSpelled(x, 3);
    NameIsSpelled(x, 4);
    assert Spelled(x, 1) == Under(a, Spelled(x, 0));
    assert Spelled(x, 2) == Under(b, Spelled(x, 1));
    assert Spelled(x, 3) == Under(e, Spelled(x, 2));
    Spelling(a, b, e, d, ".in-addr.arpa.");
  }

  /** The address written a.b.e.d. */
  function Quad(a: nat, b: nat, e: nat, d: nat): Addr
    requires a < 256 && b < 256 && e < 256 && d < 256
  {
    a * 0x100_0000 + b * 0x1_0000 + e * 0x100 + d
  }

  lemma LowByte(high: nat, low: nat)
    requires low < 256
    ensures (high * 256 + low) / 256 == high && (high * 256 + low) % 256 == low
  {
  }

  lemma OctetsOf(a: nat, b: nat, e: nat, d: nat)
    requires a < 256 && b < 256 && e < 256 && d < 256
    ensures
      var x := Quad(a, b, e, d);
      Octet(x, 0) == a && Octet(x, 1) == b && Octet(x, 2) == e && Octet(x, 3) == d
  {
    var x := Quad(a, b, e, d);
    var two: nat := a * 256 + b;
    var three: nat := two * 256 + e;
    assert x == three * 256 + d;
    LowByte(three, d);
    LowByte(two, e);
    LowByte(a, b);
    DivOfDiv(x, 256, 256);
    DivOfDiv(x, 0x1_0000, 256);
  }

  /** The PTR name of the address written a.b.e.d: the octets in reverse, each in decimal. */
  lemma PtrNameIsSpelled(a: nat, b: nat, e: nat, d: nat)
    requires a < 256 && b < 256 && e < 256 && d < 256
    ensures PtrName(Quad(a, b, e, d)) ==
            Decimal(d) + "." + Decimal(e) + "." + Decimal(b) + "." + Decimal(a) + ".in-addr.arpa."
  {
    OctetsOf(a, b, e, d);
    NamesInText(Quad(a, b, e, d), Decimal(a), Decimal(b), Decimal(e), Decimal(d));
  }

  /** The zone of a block, from the octets of any address in it; no other prefix has one. */
  lemma ReverseZoneIsSpelled(c: Cidr, a: nat, b: nat, e: nat, d: nat)
    requires a < 256 && b < 256 && e < 256 && d < 256
    requires Contains(c, Quad(a, b, e, d))
    ensures ReverseZone(c) ==
            if c.bits == 8 then Some(Decimal(a) + ".in-addr.arpa.")
            else if c.bits == 16 then Some(Decimal(b) + "." + Decimal(a) + ".in-addr.arpa.")
            else if c.bits == 24 then Some(Decimal(e) + "." + Decimal(b) + "." + Decimal(a) + ".in-addr.arpa.")
            else None
  {
    if c.bits in {8, 16, 24} {
      ZoneOfCovered(c, Quad(a, b, e, d), c.bits / 8);
      OctetsOf(a, b, e, d);
      NamesInText(Quad(a, b, e, d), Decimal(a), Decimal(b), Decimal(e), Decimal(d));
    }
  }

  lemma EndsWith(a: string, b: string)
    requires a != "" && a[|a| - 1] == '.'
    ensures HasSuffix(a + b, "." + b)
  {
    assert (a + b)[|a| - 1..] == "." + b;
  }

  lemma ArpaNameEnds(l: seq<string>)
    requires l != []
    ensures HasSuffix(Dotted(l + ARPA), ".in-addr.arpa.")
  {
    DottedConcat(l, ARPA);
    ArpaIsDotted();
    DottedEnds(l);
    EndsWith(Dotted(l), "in-addr.arpa.");
  }

  lemma ReverseZoneEnds(c: Cidr)
    requires c.bits in {8, 16, 24}
    ensures HasSuffix(ReverseZone(c).value, ".in-addr.arpa.")
  {
    OctetLabelsArePlain(Network(c), c.bits / 8);
    ArpaNameEnds(OctetLabels(Network(c), c.bits / 8));
  }

  lemma PrependedEnds(l: seq<string>)
    ensures HasSuffix(Dotted(["a"] + l), "." + Dotted(l))
  {
    DottedConcat(["a"], l);
    DottedLast([], "a");
    assert [] + ["a"] == ["a"];
    DottedEnds(["a"]);
    EndsWith(Dotted(["a"]), Dotted(l));
  }

  lemma PrependedIsPlain(l: seq<string>)
    requires AllPlain(l)
    ensures AllPlain(["a"] + l)
  {
    assert Plain("a");
  }

  /** Equal names have equal labels as far as the shorter list goes. */
  lemma SameNameSameLabels(l: seq<string>, m: seq<string>)
    requires AllPlain(l) && AllPlain(m) && |m| <= |l| && Dotted(l) == Dotted(m)
    ensures l[|l| - |m|..] == m
  {
    var longer := ["a"] + l;
    PrependedEnds(l);
    PrependedIsPlain(l);
    SuffixIsLabelSuffix(longer, m);
    assert longer[|longer| - |m|..] == l[|l| - |m|..];
  }

  /** No two addresses share a PTR name. */
  lemma PtrNameIsUnique(x: Addr, y: Addr)
    ensures PtrName(x) == PtrName(y) <==> x == y
  {
    if PtrName(x) == PtrName(y) {
      var l, m := OctetLabels(x, 4) + ARPA, OctetLabels(y, 4) + ARPA;
      OctetLabelsArePlain(x, 4);
      OctetLabelsArePlain(y, 4);
      SameNameSameLabels(l, m);
      assert OctetLabels(x, 4) == l[..4] && OctetLabels(y, 4) == m[..4];
      LabelsMeanOctets(x, y, 4);
      assert SameOctets(x, y, 3) && Octet(x, 3) == Octet(y, 3);
      HighBits(x, y);
      assert x == x / 256 * 256 + Octet(x, 3);
    }
  }

  /** No reverse zone is the whole name of an address. */
  lemma ZoneIsNoPtr(c: Cidr, x: Addr)
    requires c.bits in {8, 16, 24}
    ensures ReverseZone(c).value != PtrName(x)
  {
    var n := c.bits / 8;
    var l, m := OctetLabels(x, 4) + ARPA, OctetLabels(Network(c), n) + ARPA;
    if Dotted(l) == Dotted(m) {
      OctetLabelsArePlain(x, 4);
      OctetLabelsArePlain(Network(c), n);
      SameNameSameLabels(l, m);
      LabelsTail(x, n);
      assert l[|l| - |m|..] == OctetLabels(x, n) + ARPA;
      ZoneLengthGrows(x, n, 4);
    }
  }

  lemma CoversExactlyItsBlock(c: Cidr, x: Addr)
    requires c.bits in {8, 16, 24}
    ensures ReverseZone(c).Some? && ReverseZone(c).value != "" && (Covers(ReverseZone(c).value, PtrName(x)) <==> Contains(c, x))
  {
    ZoneCoversExactlyItsBlock(c, x);
    ReverseZoneEnds(c);
    ZoneIsNoPtr(c, x);
  }

  ghost predicate ZonesOf(blocks: seq<Cidr>, zones: seq<string>) {
    |zones| == |blocks| && forall i :: 0 <= i < |blocks| ==> blocks[i].bits in {8, 16, 24} && ReverseZone(blocks[i]) == Some(zones[i])
  }

  /** Block i contains the address, and no block containing it has a longer prefix. */
  ghost predicate MostSpecific(blocks: seq<Cidr>, x: Addr, i: nat) {
    i < |blocks| && Contains(blocks[i], x) && forall j :: 0 <= j < |blocks| && Contains(blocks[j], x) ==> blocks[j].bits <= blocks[i].bits
  }

  /** A PTR record goes to the reverse zone of the longest prefix containing its address, and is refused
      exactly when no block contains it. */
  lemma RecordGoesToTheMostSpecific(blocks: seq<Cidr>, zones: seq<string>, x: Addr, target: string)
    requires ZonesOf(blocks, zones) && Longest(zones, PtrName(x), target)
    ensures target == "" <==> forall i :: 0 <= i < |blocks| ==> !Contains(blocks[i], x)
    ensures target != "" ==> exists i: nat :: MostSpecific(blocks, x, i) && zones[i] == target
  {
    forall i | 0 <= i < |blocks| ensures zones[i] != "" && (Covers(zones[i], PtrName(x)) <==> Contains(blocks[i], x)) {
      CoversExactlyItsBlock(blocks[i], x);
    }
    if target != "" {
      var i :| 0 <= i < |zones| && zones[i] == target;
      forall j | 0 <= j < |blocks| && Contains(blocks[j], x) ensures blocks[j].bits <= blocks[i].bits {
        LongestZoneIsMostSpecific(blocks[i], blocks[j], x);
      }
      assert MostSpecific(blocks, x, i);
    }
  }
}
