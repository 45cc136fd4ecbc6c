/** A worked example, evaluated on the model: two reference candidates and
    two records, one of them for an unknown candidate. */
module Scenario {
  import opened Tally
  import opened Row

  /** Juan Perez resolves to position 1 and Ghost stays unresolved; the
      row holds 15 for position 1 and '0' for position 2. */
  lemma DocumentedExample()
    ensures var refs := [Candidate("Juan Perez", 1), Candidate("Maria Lopez", 2)];
      var items := [RawRecord("Juan Perez", Str("15"), map[]), RawRecord("Ghost", Str("3"), map[])];
      var resolved := ResolveAll(Lookup(refs), items);
      && resolved == [Resolved("Juan Perez", Str("15"), map[], At(1)), Resolved("Ghost", Str("3"), map[], NoEncontrado)]
      && Sorted(resolved)
      && PositionColumns(refs) == 2
      && PositionCells(MarksOf(resolved), 2) == [Str("15"), Str("0")]
  {
    var refs := [Candidate("Juan Perez", 1), Candidate("Maria Lopez", 2)];
    var lookup := Lookup(refs);
    assert lookup == map["Juan Perez" := 1, "Maria Lopez" := 2] by {
      assert refs[..1] == [Candidate("Juan Perez", 1)];
      assert Lookup(refs[..1]) == map["Juan Perez" := 1] by {
        assert refs[..1][..0] == [];
      }
    }
    assert "Ghost" != "Juan Perez" && "Ghost" != "Maria Lopez" by {
      assert "Ghost"[0] == 'G';
    }
    var resolved := [Resolved("Juan Perez", Str("15"), map[], At(1)), Resolved("Ghost", Str("3"), map[], NoEncontrado)];
    var marks := MarksOf(resolved);
    assert marks == map[1 := Str("15")] by {
      assert resolved[..1] == [resolved[0]];
      assert resolved[..1][..0] == [];
      assert MarksOf(resolved[..1]) == MarksOf([])[1 := Str("15")];
    }
    assert PositionCells(marks, 2) == [Cell(marks, 1), Cell(marks, 2)];
  }
}
