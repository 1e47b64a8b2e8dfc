/** Linking at 0 and letting the loader add B at every absolute field gives the bytes
    that linking at B would have given. This file proves it for the section bytes in the
    file; PeLoader carries it to the finished image and its fixup table. */
module Rebase {
  import opened Words
  import opened ElfLayout
  import opened ElfRelocate

  /** Every address moved by base. */
  function Shift(addrs: seq<nat>, base: nat): (r: seq<nat>)
    ensures |r| == |addrs| && forall i :: 0 <= i < |addrs| ==> r[i] == addrs[i] + base
  {
    seq(|addrs|, i requires 0 <= i < |addrs| => addrs[i] + base)
  }

  /** How much a loader at base owes this field: base for an absolute one, nothing for a relative one. */
  function Owed(a: Action, base: nat): nat { if a.Absolute? then base else 0 }

  /** The loader's additions, applied to the section bytes in the file. */
  function RebaseSites(f: seq<byte>, sites: seq<Site>, sections: seq<Section>, m: Machine, base: nat, symCount: nat): (r: seq<byte>)
    requires InBounds(sites, sections, symCount, |f|, m)
    ensures |r| == |f|
  {
    if |sites| == 0 then f
    else
      var s := sites[|sites| - 1];
      var a := Classify(m, s.reloc.kind);
      AddAt(RebaseSites(f, sites[..|sites| - 1], sections, m, base, symCount), FilePos(s, sections), Width(a), Owed(a, base))
  }

  /** Any two patched fields are the same field or share no byte. */
  predicate FieldsApart(sites: seq<Site>, sections: seq<Section>, m: Machine)
    requires forall k :: 0 <= k < |sites| ==> sites[k].target < |sections|
  {
    forall i, j :: 0 <= i < j < |sites| ==>
      NoPartialOverlap(FilePos(sites[i], sections), Width(Classify(m, sites[i].reloc.kind)),
                       FilePos(sites[j], sections), Width(Classify(m, sites[j].reloc.kind)))
  }

  /** Every relocation that patches anything names a symbol that lives in a section. */
  predicate NamesSections(sites: seq<Site>, syms: seq<Symbol>, num: nat, m: Machine) {
    forall k :: 0 <= k < |sites| && Width(Classify(m, sites[k].reloc.kind)) > 0 ==>
      sites[k].reloc.sym < |syms| && SectionDefined(syms[sites[k].reloc.sym], num)
  }

  // ----- arithmetic of one field -----

  lemma ModOfMod(x: int, a: int, b: int)
    requires a > 0 && b > 0
    ensures a * b > 0 && (x % (a * b)) % a == x % a
  {
    var q, r := x / (a * b), x % (a * b);
    assert x == (a * b) * q + r;
    assert (a * b) * q == a * (b * q);
    var q', r' := r / a, r % a;
    assert r == a * q' + r';
    assert x == a * (b * q + q') + r' by { assert a * (b * q) + a * q' == a * (b * q + q'); }
    ModUnique(x, a, b * q + q', r');
  }

  lemma WordModuli()
    ensures Modulus(0) == 1
    ensures Modulus(4) == 0x1_0000_0000
    ensures Modulus(8) == 0x1_0000_0000 * 0x1_0000_0000
  {
    assert Modulus(2) == 0x1_0000;
    assert Modulus(4) == 256 * (256 * Modulus(2));
    assert Modulus(6) == 256 * (256 * Modulus(4));
    assert Modulus(8) == 256 * (256 * Modulus(6));
  }

  /** Reducing to the address size first does not change a field of any width in use. */
  lemma NarrowAfterWide(x: int, m: Machine, kind: nat)
    ensures var w := Width(Classify(m, kind));
            (x % Modulus(AddressSize(m))) % Modulus(w) == x % Modulus(w)
  {
    WordModuli();
    var w := Width(Classify(m, kind));
    if w == 4 {
      ModOfMod(x, 0x1_0000_0000, if m.I386? then 1 else 0x1_0000_0000);
    }
  }

  lemma ShiftedSymbol(s: Symbol, vaddrs: seq<nat>, m: Machine, kind: nat, base: nat)
    requires SectionDefined(s, |vaddrs|)
    ensures var w := Width(Classify(m, kind));
            Located(s, Shift(vaddrs, base), m).value % Modulus(w) == (Located(s, vaddrs, m).value + base) % Modulus(w)
  {
    var w := Width(Classify(m, kind));
    var x := s.value + vaddrs[s.shndx];
    NarrowAfterWide(x + base, m, kind);
    NarrowAfterWide(x, m, kind);
    ModCongruent(x % Modulus(AddressSize(m)), x, base, Modulus(w));
  }

  /** Moving everything by base moves what a relocation adds by exactly what the loader is owed. */
  lemma ShiftedDelta(site: Site, syms: seq<Symbol>, vaddrs: seq<nat>, addrs: seq<nat>, t: Target, base: nat)
    requires site.reloc.sym < |syms| && site.target < |addrs|
    requires SectionDefined(syms[site.reloc.sym], |vaddrs|)
    ensures var a := Classify(t.machine, site.reloc.kind);
            Delta(site, LocateAll(syms, Shift(vaddrs, base), t.machine), Shift(addrs, base), t) % Modulus(Width(a))
              == (Delta(site, LocateAll(syms, vaddrs, t.machine), addrs, t) + Owed(a, base)) % Modulus(Width(a))
  {
    var a := Classify(t.machine, site.reloc.kind);
    var mod := Modulus(Width(a));
    var s := syms[site.reloc.sym];
    var at0, atB := Located(s, vaddrs, t.machine).value, Located(s, Shift(vaddrs, base), t.machine).value;
    ShiftedSymbol(s, vaddrs, t.machine, site.reloc.kind, base);
    if a.Absolute? {
      ModCongruent(atB, at0 + base, if site.rela then site.reloc.addend else 0, mod);
    } else if a.Relative? {
      ModCongruent(atB, at0 + base,
                   (if site.rela then site.reloc.addend else 0) - (addrs[site.target] + base) - site.reloc.offset - t.vaddrOffset, mod);
    } else {
      WordModuli();
    }
  }

  // ----- all fields -----

  /** The loader's additions commute with one more addition that overlaps none of them partially. */
  lemma {:induction false} RebaseCommutes(f: seq<byte>, sites: seq<Site>, sections: seq<Section>, m: Machine, base: nat, symCount: nat,
                                          p: nat, w: nat, d: int)
    requires InBounds(sites, sections, symCount, |f|, m) && p + w <= |f|
    requires forall k :: 0 <= k < |sites| ==>
      NoPartialOverlap(FilePos(sites[k], sections), Width(Classify(m, sites[k].reloc.kind)), p, w)
    ensures RebaseSites(AddAt(f, p, w, d), sites, sections, m, base, symCount)
              == AddAt(RebaseSites(f, sites, sections, m, base, symCount), p, w, d)
  {
    if |sites| > 0 {
      var init, s := sites[..|sites| - 1], sites[|sites| - 1];
      RebaseCommutes(f, init, sections, m, base, symCount, p, w, d);
      var a := Classify(m, s.reloc.kind);
      AddAtCommutes(RebaseSites(f, init, sections, m, base, symCount), p, w, d, FilePos(s, sections), Width(a), Owed(a, base));
    }
  }

  predicate Rebasable(sites: seq<Site>, sections: seq<Section>, syms: seq<Symbol>, fileSize: nat, m: Machine) {
    && InBounds(sites, sections, |syms|, fileSize, m)
    && FieldsApart(sites, sections, m)
    && NamesSections(sites, syms, |sections|, m)
  }

  /** What is added at base is what is added at 0 plus what the loader owes, in the width of the field. */
  predicate InStep(site: Site, m: Machine, base: nat, d0: int, dB: int) {
    var a := Classify(m, site.reloc.kind);
    dB % Modulus(Width(a)) == (d0 + Owed(a, base)) % Modulus(Width(a))
  }

  /** One more relocation on both sides keeps the two images in step. */
  lemma RebaseStep(g: seq<byte>, sites: seq<Site>, sections: seq<Section>, m: Machine, base: nat, symCount: nat, d0: int, dB: int)
    requires |sites| > 0 && InBounds(sites, sections, symCount, |g|, m) && FieldsApart(sites, sections, m)
    requires InStep(sites[|sites| - 1], m, base, d0, dB)
    ensures var init, s := sites[..|sites| - 1], sites[|sites| - 1];
            var p, w := FilePos(s, sections), Width(Classify(m, s.reloc.kind));
            AddAt(RebaseSites(g, init, sections, m, base, symCount), p, w, dB)
              == RebaseSites(AddAt(g, p, w, d0), sites, sections, m, base, symCount)
  {
    var init, s := sites[..|sites| - 1], sites[|sites| - 1];
    var a := Classify(m, s.reloc.kind);
    var p, w := FilePos(s, sections), Width(a);
    AddAtSplit(RebaseSites(g, init, sections, m, base, symCount), p, w, dB, d0, Owed(a, base));
    RebaseCommutes(g, init, sections, m, base, symCount, p, w, d0);
  }

  lemma SiteDelta(site: Site, syms: seq<Symbol>, vaddrs: seq<nat>, addrs: seq<nat>, t: Target, base: nat)
    requires site.reloc.sym < |syms| && site.target < |addrs|
    requires Width(Classify(t.machine, site.reloc.kind)) > 0 ==> SectionDefined(syms[site.reloc.sym], |vaddrs|)
    ensures InStep(site, t.machine, base, Delta(site, LocateAll(syms, vaddrs, t.machine), addrs, t),
                   Delta(site, LocateAll(syms, Shift(vaddrs, base), t.machine), Shift(addrs, base), t))
  {
    if Width(Classify(t.machine, site.reloc.kind)) > 0 {
      ShiftedDelta(site, syms, vaddrs, addrs, t, base);
    }
  }

  /** Meaning preservation on the section bytes: relocate at 0 and rebase, or relocate at base. */
  lemma {:induction false} RebasePreservesMeaning(f: seq<byte>, sites: seq<Site>, sections: seq<Section>, syms: seq<Symbol>,
                                                  vaddrs: seq<nat>, addrs: seq<nat>, t: Target, base: nat)
    requires |addrs| == |vaddrs| == |sections| && Rebasable(sites, sections, syms, |f|, t.machine)
    ensures RelocateAll(f, sites, sections, LocateAll(syms, Shift(vaddrs, base), t.machine), Shift(addrs, base), t)
              == RebaseSites(RelocateAll(f, sites, sections, LocateAll(syms, vaddrs, t.machine), addrs, t),
                             sites, sections, t.machine, base, |syms|)
  {
    if |sites| > 0 {
      var m := t.machine;
      var init, s := sites[..|sites| - 1], sites[|sites| - 1];
      var syms0, symsB, addrsB := LocateAll(syms, vaddrs, m), LocateAll(syms, Shift(vaddrs, base), m), Shift(addrs, base);
      var g := RelocateAll(f, init, sections, syms0, addrs, t);
      RebasePreservesMeaning(f, init, sections, syms, vaddrs, addrs, t, base);
      SiteDelta(s, syms, vaddrs, addrs, t, base);
      RebaseStep(g, sites, sections, m, base, |syms|, Delta(s, syms0, addrs, t), Delta(s, symsB, addrsB, t));
    }
  }

  // ----- exactly when one relocation can be rebased -----

  lemma ZeroOrNot(x: int, b: int, m: int)
    requires m > 0
    ensures x % m == (x + b) % m <==> b % m == 0
  {
    ModAdd(b, x, m);
    if x % m == (x + b) % m {
      ModCongruent(x, x + b, -x, m);
    }
  }

  /** For one relocation, the field linked at base is the field linked at 0 plus what the loader adds
      if and only if its symbol lives in a section (or base vanishes in the width of the field):
      absolute and null symbols do not move with the image, yet their fields are treated as if they did. */
  lemma RebasesExactlyWhenSectionDefined(site: Site, syms: seq<Symbol>, vaddrs: seq<nat>, addrs: seq<nat>, t: Target, base: nat)
    requires site.reloc.sym < |syms| && site.target < |addrs|
    requires Acceptable(syms[site.reloc.sym], |vaddrs|)
    requires Width(Classify(t.machine, site.reloc.kind)) > 0
    ensures var a := Classify(t.machine, site.reloc.kind);
            Delta(site, LocateAll(syms, Shift(vaddrs, base), t.machine), Shift(addrs, base), t) % Modulus(Width(a))
              == (Delta(site, LocateAll(syms, vaddrs, t.machine), addrs, t) + Owed(a, base)) % Modulus(Width(a))
            <==> SectionDefined(syms[site.reloc.sym], |vaddrs|) || base % Modulus(Width(a)) == 0
  {
    var a := Classify(t.machine, site.reloc.kind);
    var d0 := Delta(site, LocateAll(syms, vaddrs, t.machine), addrs, t);
    var dB := Delta(site, LocateAll(syms, Shift(vaddrs, base), t.machine), Shift(addrs, base), t);
    if SectionDefined(syms[site.reloc.sym], |vaddrs|) {
      ShiftedDelta(site, syms, vaddrs, addrs, t, base);
    } else if a.Absolute? {
      ZeroOrNot(d0, base, Modulus(Width(a)));
    } else {
      ZeroOrNot(dB, base, Modulus(Width(a)));
    }
  }
}
