/** The name of the exported workbook: the five form fields joined with
    hyphens, stripped of every character other than an ASCII letter, a digit
    or a hyphen, with each run of hyphens collapsed to one, plus `.xlsx`. */
module FileName {
  import opened Form

  /** The characters the class `[a-zA-Z0-9-]` matches. */
  predicate Allowed(c: char) {
    'a' <= c <= 'z' || 'A' <= c <= 'Z' || '0' <= c <= '9' || c == '-'
  }

  predicate AllAllowed(s: string) {
    forall k :: 0 <= k < |s| ==> Allowed(s[k])
  }

  predicate NoDoubleHyphen(s: string) {
    forall k :: 0 <= k < |s| - 1 ==> !(s[k] == '-' && s[k + 1] == '-')
  }

  /** `${territory}-${municipio}-${centro}-${colonia}-${jrv}` */
  function Joined(f: FormData): string {
    f.territory + "-" + f.municipio + "-" + f.centro + "-" + f.colonia + "-" + f.jrv
  }

  /** `.replace(/[^a-zA-Z0-9-]/g, '')`: every allowed character is kept, as
      often as it occurs, and every other one is dropped. */
  function StripDisallowed(s: string): (r: string)
    ensures AllAllowed(r)
    ensures forall c :: Allowed(c) ==> multiset(r)[c] == multiset(s)[c]
    ensures |s| == 1 ==> r == if Allowed(s[0]) then s else []
  {
    if s == [] then []
    else
      assert s == [s[0]] + s[1..];
      (if Allowed(s[0]) then [s[0]] else []) + StripDisallowed(s[1..])
  }

  /** The strip works character by character, so it keeps the order of the
      characters it keeps: together with the one-character case above this
      determines the result completely. */
  lemma {:induction false} StripConcat(a: string, b: string)
    ensures StripDisallowed(a + b) == StripDisallowed(a) + StripDisallowed(b)
  {
    if a == [] {
      assert a + b == b;
    } else {
      assert (a + b)[1..] == a[1..] + b;
      StripConcat(a[1..], b);
    }
  }

  /** A string already made of allowed characters passes through unchanged. */
  lemma {:induction false} StripAllowedUnchanged(s: string)
    requires AllAllowed(s)
    ensures StripDisallowed(s) == s
  {
    if s != [] {
      StripAllowedUnchanged(s[1..]);
    }
  }

  /** `.replace(/-+/g, '-')`: a hyphen followed by another hyphen is dropped,
      so each run of hyphens leaves exactly one. */
  function CollapseHyphens(s: string): (r: string)
    ensures |r| <= |s|
    ensures s != [] ==> r != [] && r[0] == s[0]
    ensures NoDoubleHyphen(r)
    ensures forall c :: c in r ==> c in s
  {
    if s == [] then []
    else if |s| >= 2 && s[0] == '-' && s[1] == '-' then CollapseHyphens(s[1..])
    else [s[0]] + CollapseHyphens(s[1..])
  }

  /** The characters other than hyphens, in order. */
  function WithoutHyphens(s: string): string {
    if s == [] then []
    else (if s[0] == '-' then [] else [s[0]]) + WithoutHyphens(s[1..])
  }

  /** Collapsing changes only the hyphens: every other character stays, in
      its order. */
  lemma {:induction false} CollapseKeepsOtherCharacters(s: string)
    ensures WithoutHyphens(CollapseHyphens(s)) == WithoutHyphens(s)
  {
    if s != [] {
      CollapseKeepsOtherCharacters(s[1..]);
      if !(|s| >= 2 && s[0] == '-' && s[1] == '-') {
        var r := CollapseHyphens(s[1..]);
        assert ([s[0]] + r)[1..] == r;
      }
    }
  }

  /** Two hyphens in a row collapse as one does: a run of any length leaves a
      single hyphen, wherever it stands. Together with `CollapseUnchanged`
      this determines the result completely. */
  lemma {:induction false} CollapseDoubled(x: string, y: string)
    ensures CollapseHyphens(x + "--" + y) == CollapseHyphens(x + "-" + y)
  {
    if x == [] {
      assert x + "--" + y == "--" + y;
      assert ("--" + y)[1..] == x + "-" + y;
    } else {
      assert (x + "--" + y)[1..] == x[1..] + "--" + y;
      assert (x + "-" + y)[1..] == x[1..] + "-" + y;
      CollapseDoubled(x[1..], y);
    }
  }

  /** Collapsing changes nothing in a string without a run of hyphens, so it
      is idempotent. */
  lemma {:induction false} CollapseUnchanged(s: string)
    requires NoDoubleHyphen(s)
    ensures CollapseHyphens(s) == s
  {
    if s != [] {
      CollapseUnchanged(s[1..]);
    }
  }

  /** The file name handed to the workbook writer. */
  function ExcelFileName(f: FormData): (name: string)
    ensures |name| >= 5 && name[|name| - 5..] == ".xlsx"
    ensures AllAllowed(name[..|name| - 5])
    ensures NoDoubleHyphen(name[..|name| - 5])
  {
    var stripped := StripDisallowed(Joined(f));
    CollapseKeepsAllowed(stripped);
    var stem := CollapseHyphens(stripped);
    assert (stem + ".xlsx")[..|stem|] == stem;
    stem + ".xlsx"
  }

  lemma CollapseKeepsAllowed(s: string)
    requires AllAllowed(s)
    ensures AllAllowed(CollapseHyphens(s))
  {
  }


  predicate AlphaNumeric(s: string) {
    s != [] && forall k :: 0 <= k < |s| ==> Allowed(s[k]) && s[k] != '-'
  }

  /** Appending a hyphen and an alphanumeric field to a clean string that
      ends in something other than a hyphen keeps it clean. */
  lemma AppendField(x: string, y: string)
    requires AllAllowed(x) && NoDoubleHyphen(x) && x != [] && x[|x| - 1] != '-'
    requires AlphaNumeric(y)
    ensures var z := x + "-" + y;
      AllAllowed(z) && NoDoubleHyphen(z) && z[|z| - 1] != '-'
  {
    var z := x + "-" + y;
    forall k | 0 <= k < |z| - 1
      ensures !(z[k] == '-' && z[k + 1] == '-')
    {
      if k < |x| - 1 {
        assert z[k] == x[k] && z[k + 1] == x[k + 1];
      } else if k == |x| - 1 {
        assert z[k] == x[k];
      } else {
        assert z[k + 1] == y[k + 1 - |x| - 1];
      }
    }
    assert forall k :: |x| < k < |z| ==> z[k] == y[k - |x| - 1];
  }

  /** Fields that are non-empty and purely alphanumeric come through the
      sanitising verbatim, joined by single hyphens. */
  lemma {:induction false} CleanFieldsFileName(f: FormData)
    requires AlphaNumeric(f.territory) && AlphaNumeric(f.municipio) && AlphaNumeric(f.centro)
    requires AlphaNumeric(f.colonia) && AlphaNumeric(f.jrv)
    ensures ExcelFileName(f) == Joined(f) + ".xlsx"
  {
    AppendField(f.territory, f.municipio);
    var x1 := f.territory + "-" + f.municipio;
    AppendField(x1, f.centro);
    var x2 := x1 + "-" + f.centro;
    AppendField(x2, f.colonia);
    var x3 := x2 + "-" + f.colonia;
    AppendField(x3, f.jrv);
    var j := Joined(f);
    assert j == x3 + "-" + f.jrv;
    StripAllowedUnchanged(j);
    CollapseUnchanged(j);
  }
}
