/** Which versions a dependency, a provision or a conflict accepts (lib/libalpm/deps.c: dep_vercmp,
    _alpm_depcmp_literal, _alpm_depcmp_provides), against the order of versions and the text of dependencies. */
module DepVersions {
  import opened Packages
  import opened Version
  import opened VersionOrder
  import opened Deps
  import opened DepString
  import opened Conflicts

  /** How two versions compare: below zero if the first is older. */
  function Order(v: string, w: string): (c: int) {
    CompareEvrTokens(ParseEvr(v), ParseEvr(w))
  }

  /** A package of the name satisfies a versioned dependency exactly if its version is on the side asked for. */
  lemma ComparatorExactly(p: Pkg, d: Depend, w: string)
    requires WellEnded(p.version) && WellEnded(w) && d.version == Some(w)
    ensures p.name != d.name ==> !SatisfiesLiterally(p, d)
    ensures p.name == d.name ==>
      && (d.mod == LT ==> (SatisfiesLiterally(p, d) <==> Order(p.version, w) < 0))
      && (d.mod == LE ==> (SatisfiesLiterally(p, d) <==> Order(p.version, w) <= 0))
      && (d.mod == EQ ==> (SatisfiesLiterally(p, d) <==> Order(p.version, w) == 0))
      && (d.mod == GE ==> (SatisfiesLiterally(p, d) <==> Order(p.version, w) >= 0))
      && (d.mod == GT ==> (SatisfiesLiterally(p, d) <==> Order(p.version, w) > 0))
      && (d.mod == ANY ==> SatisfiesLiterally(p, d))
  {
    FullVerCmpIsLexicographic(p.version, w);
  }

  /** A provision with a version satisfies it exactly if that version is on the side asked for. */
  lemma ProvisionExactly(pr: Depend, v: string, d: Depend, w: string)
    requires pr.mod == EQ && pr.version == Some(v) && WellEnded(v) && WellEnded(w) && d.version == Some(w)
    ensures pr.name != d.name ==> !Provides(pr, d)
    ensures pr.name == d.name ==>
      && (d.mod == LT ==> (Provides(pr, d) <==> Order(v, w) < 0))
      && (d.mod == LE ==> (Provides(pr, d) <==> Order(v, w) <= 0))
      && (d.mod == EQ ==> (Provides(pr, d) <==> Order(v, w) == 0))
      && (d.mod == GE ==> (Provides(pr, d) <==> Order(v, w) >= 0))
      && (d.mod == GT ==> (Provides(pr, d) <==> Order(v, w) > 0))
      && (d.mod == ANY ==> Provides(pr, d))
  {
    FullVerCmpIsLexicographic(v, w);
    assert VerCmp(pr.version, d.version) == Order(v, w);
    assert pr.name == d.name ==> (Provides(pr, d) <==> VersionOk(pr.version, d.mod, d.version));
  }

  /** Any other provision satisfies a dependency exactly if that asks for no version. */
  lemma UnversionedProvision(pr: Depend, d: Depend)
    requires pr.mod != EQ
    ensures Provides(pr, d) <==> pr.name == d.name && d.mod == ANY
  {}

  // ---------- from the text ----------

  /** Text without comparators and blanks. */
  predicate Plain(s: string) {
    '<' !in s && '>' !in s && '=' !in s && ' ' !in s
  }

  lemma PlainWellFormed(name: string, w: string, mod: DepMod)
    requires Plain(name) && Plain(w) && mod != ANY
    ensures WellFormed(Depend(name, Some(w), None, mod)) && WellFormed(Depend(name, None, None, ANY))
  {}

  /** What the text of a dependency stands for. */
  lemma TextMeans(name: string, w: string)
    requires Plain(name) && Plain(w)
    ensures ParseDep(name) == Depend(name, None, None, ANY)
    ensures ParseDep(name + "<" + w) == Depend(name, Some(w), None, LT)
    ensures ParseDep(name + "<=" + w) == Depend(name, Some(w), None, LE)
    ensures ParseDep(name + "=" + w) == Depend(name, Some(w), None, EQ)
    ensures ParseDep(name + ">=" + w) == Depend(name, Some(w), None, GE)
    ensures ParseDep(name + ">" + w) == Depend(name, Some(w), None, GT)
  {
    OneMeans(name, w, LT, "<");
    OneMeans(name, w, LE, "<=");
    OneMeans(name, w, EQ, "=");
    OneMeans(name, w, GE, ">=");
    OneMeans(name, w, GT, ">");
    PlainWellFormed(name, w, EQ);
    DepString.ParsePrinted(Depend(name, None, None, ANY));
    assert PrintDep(Depend(name, None, None, ANY)) == name;
  }

  lemma OneMeans(name: string, w: string, mod: DepMod, op: string)
    requires Plain(name) && Plain(w) && mod != ANY && op == Op(mod)
    ensures ParseDep(name + op + w) == Depend(name, Some(w), None, mod)
  {
    var d := Depend(name, Some(w), None, mod);
    PlainWellFormed(name, w, mod);
    DepString.ParsePrinted(d);
    assert PrintDep(d) == name + op + w;
  }

  /** "name>w" asks for a newer version, "name<w" for an older one, and so on. */
  lemma TextAccepts(p: Pkg, name: string, w: string)
    requires Plain(name) && Plain(w) && WellEnded(p.version) && WellEnded(w)
    ensures SatisfiesLiterally(p, ParseDep(name)) <==> p.name == name
    ensures SatisfiesLiterally(p, ParseDep(name + "<" + w)) <==> p.name == name && Order(p.version, w) < 0
    ensures SatisfiesLiterally(p, ParseDep(name + "<=" + w)) <==> p.name == name && Order(p.version, w) <= 0
    ensures SatisfiesLiterally(p, ParseDep(name + "=" + w)) <==> p.name == name && Order(p.version, w) == 0
    ensures SatisfiesLiterally(p, ParseDep(name + ">=" + w)) <==> p.name == name && Order(p.version, w) >= 0
    ensures SatisfiesLiterally(p, ParseDep(name + ">" + w)) <==> p.name == name && Order(p.version, w) > 0
  {
    TextMeans(name, w);
    ComparatorExactly(p, Depend(name, Some(w), None, LT), w);
    ComparatorExactly(p, Depend(name, Some(w), None, LE), w);
    ComparatorExactly(p, Depend(name, Some(w), None, EQ), w);
    ComparatorExactly(p, Depend(name, Some(w), None, GE), w);
    ComparatorExactly(p, Depend(name, Some(w), None, GT), w);
  }

  /** A package that declares "name<w" conflicts exactly with the older versions of that other package, and of
      those that provide one. */
  lemma TextConflicts(a: Pkg, b: Pkg, name: string, w: string)
    requires Plain(name) && Plain(w) && WellEnded(b.version) && WellEnded(w)
    requires a.conflicts == [ParseDep(name + "<" + w)]
    ensures a.name == b.name ==> !ConflictsWith(a, b)
    ensures a.name != b.name && b.provisions == [] ==>
      (ConflictsWith(a, b) <==> b.name == name && Order(b.version, w) < 0)
    ensures a.name != b.name && b.name != name ==>
      (ConflictsWith(a, b) <==>
       exists i :: 0 <= i < |b.provisions| && Provides(b.provisions[i], ParseDep(name + "<" + w)))
  {
    TextAccepts(b, name, w);
    assert a.conflicts[0] == ParseDep(name + "<" + w);
  }
}
