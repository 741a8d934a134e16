/**
 * The dashboard endpoint's figures: user and member counts, members per
 * gender with display labels, members per age band, and the ten ministries
 * with most members. Each query is a count or a grouping over the table,
 * here a function over the sequence of rows.
 */
module Dashboard {
  import opened Seqs
  import opened Members
  import opened Tally

  // ------------------------------------------------------------------ counts

  datatype ResumoUsuarios = ResumoUsuarios(total: nat, ativos: nat, inativos: int)

  predicate UsuarioAtivo(u: Usuario) { u.isActive }
  predicate UsuarioInativo(u: Usuario) { !u.isActive }

  /** Users: the total, the active ones, and the rest computed as the difference. */
  function ContarUsuarios(us: seq<Usuario>): (r: ResumoUsuarios)
    ensures r.total == |us| && r.ativos == Count(us, UsuarioAtivo)
    ensures r.inativos == Count(us, UsuarioInativo)
    ensures 0 <= r.inativos <= r.total
  {
    var ativos := Count(us, UsuarioAtivo);
    CountPartition(us, UsuarioAtivo, UsuarioInativo);
    ResumoUsuarios(|us|, ativos, |us| - ativos)
  }

  datatype ResumoMembros = ResumoMembros(total: nat, ativos: nat, inativos: nat, batizados: nat)

  predicate Ativo(m: Membro) { m.ativo }
  predicate Inativo(m: Membro) { !m.ativo }
  predicate Batizado(m: Membro) { m.batizado }
  predicate Qualquer(m: Membro) { true }

  /**
   * Members: active and inactive are counted by separate queries and still
   * add up to the total, because the flag is never null; the baptised are
   * never more than the total.
   */
  function ContarMembros(ms: seq<Membro>): (r: ResumoMembros)
    ensures r.total == |ms|
    ensures r.ativos == Count(ms, Ativo) && r.inativos == Count(ms, Inativo) && r.batizados == Count(ms, Batizado)
    ensures r.ativos + r.inativos == r.total
    ensures r.batizados <= r.total
  {
    CountPartition(ms, Ativo, Inativo);
    ResumoMembros(|ms|, Count(ms, Ativo), Count(ms, Inativo), Count(ms, Batizado))
  }

  // ------------------------------------------------------------------ gender

  /** `genero_map` of the view. */
  const GeneroMap: map<string, string> :=
    map["M" := "Masculino", "F" := "Feminino", "O" := "Outro", "N" := "Prefere não informar"]

  /** The view's map repeats the model's choices, code for code. */
  lemma GeneroMapMatchesChoices()
    ensures forall i :: 0 <= i < |GeneroChoices| ==>
              GeneroChoices[i].0 in GeneroMap && GeneroMap[GeneroChoices[i].0] == GeneroChoices[i].1
    ensures forall g :: g in GeneroMap <==> ValidGenero(g)
  {
    forall g ensures g in GeneroMap <==> ValidGenero(g) {
      ValidGeneroCodes(g);
    }
  }

  /** `genero_map.get(code, code)`: the display name of a declared code, the code itself otherwise. */
  function GeneroLabel(code: string): (shown: string)
    ensures ValidGenero(code) ==> exists i :: 0 <= i < |GeneroChoices| && GeneroChoices[i] == (code, shown)
    ensures !ValidGenero(code) ==> shown == code
  {
    GeneroMapMatchesChoices();
    ValidGeneroCodes(code);
    if code in GeneroMap then
      assert code == "M" ==> GeneroChoices[0] == (code, GeneroMap[code]);
      assert code == "F" ==> GeneroChoices[1] == (code, GeneroMap[code]);
      assert code == "O" ==> GeneroChoices[2] == (code, GeneroMap[code]);
      assert code == "N" ==> GeneroChoices[3] == (code, GeneroMap[code]);
      GeneroMap[code]
    else code
  }

  datatype GeneroItem = GeneroItem(genero: string, codigo: string, total: nat)

  function Generos(ms: seq<Membro>): (gs: seq<string>)
    ensures |gs| == |ms| && forall i :: 0 <= i < |ms| ==> gs[i] == ms[i].genero
  {
    seq(|ms|, i requires 0 <= i < |ms| => ms[i].genero)
  }

  /** `por_genero`: one item per gender code in use, labelled, with its number of members. */
  function PorGenero(ms: seq<Membro>): (r: seq<GeneroItem>)
    ensures |r| == |GroupCount(Generos(ms))|
    ensures forall i :: 0 <= i < |r| ==>
              && r[i].codigo == GroupCount(Generos(ms))[i].0
              && r[i].genero == GeneroLabel(r[i].codigo)
              && r[i].total == GroupCount(Generos(ms))[i].1
  {
    var t := GroupCount(Generos(ms));
    seq(|t|, i requires 0 <= i < |t| => GeneroItem(GeneroLabel(t[i].0), t[i].0, t[i].1))
  }

  function Codigos(r: seq<GeneroItem>): (cs: seq<string>)
    ensures |cs| == |r| && forall i :: 0 <= i < |r| ==> cs[i] == r[i].codigo
  {
    seq(|r|, i requires 0 <= i < |r| => r[i].codigo)
  }

  function Totals(r: seq<GeneroItem>): nat {
    if r == [] then 0 else r[0].total + Totals(r[1..])
  }

  lemma {:induction false} TotalsIsSum(r: seq<GeneroItem>, t: seq<(string, nat)>)
    requires |r| == |t| && forall i :: 0 <= i < |r| ==> r[i].total == t[i].1
    ensures Totals(r) == Sum(t)
  {
    if r != [] {
      TotalsIsSum(r[1..], t[1..]);
    }
  }

  /** The number of members with gender code `g`. */
  function ComGenero(ms: seq<Membro>, g: string): nat {
    Count(ms, (m: Membro) => m.genero == g)
  }

  lemma {:induction false} OccurrencesOfGeneros(ms: seq<Membro>, g: string)
    ensures Occurrences(Generos(ms), g) == ComGenero(ms, g)
  {
    if ms != [] {
      var init := ms[..|ms| - 1];
      OccurrencesOfGeneros(init, g);
      assert Generos(ms)[..|ms| - 1] == Generos(init);
    }
  }

  /**
   * The gender breakdown is exact: the codes are distinct, each total is the
   * number of members with that code, a code appears iff some member has
   * it, and the totals add up to the number of members.
   */
  lemma PorGeneroCorrect(ms: seq<Membro>)
    ensures var r := PorGenero(ms);
            && (forall i, j :: 0 <= i < j < |r| ==> r[i].codigo != r[j].codigo)
            && (forall i :: 0 <= i < |r| ==> r[i].total == ComGenero(ms, r[i].codigo) > 0)
            && (forall g :: g in Codigos(r) <==> g in Generos(ms))
            && Totals(r) == |ms|
  {
    var r := PorGenero(ms);
    var t := GroupCount(Generos(ms));
    GroupCountCorrect(Generos(ms));
    TotalsIsSum(r, t);
    forall i, j | 0 <= i < j < |r| ensures r[i].codigo != r[j].codigo {
      assert Keys(t)[i] != Keys(t)[j];
    }
    forall i | 0 <= i < |r| ensures r[i].total == ComGenero(ms, r[i].codigo) > 0 {
      GroupTotals(Generos(ms), i);
      OccurrencesOfGeneros(ms, r[i].codigo);
    }
    assert Codigos(r) == Keys(t);
  }

  // --------------------------------------------------------------- age bands

  /** `por_faixa_etaria`: the members per age band "0-17", "18-25", "26-35", "36-50", "51+". */
  datatype FaixasEtarias = FaixasEtarias(ate17: nat, de18a25: nat, de26a35: nat, de36a50: nat, acima50: nat)

  predicate TemIdade(m: Membro) { m.idade.Some? }
  predicate Ate17(m: Membro) { m.idade.Some? && m.idade.value <= 17 }
  predicate De18a25(m: Membro) { m.idade.Some? && 18 <= m.idade.value <= 25 }
  predicate De26a35(m: Membro) { m.idade.Some? && 26 <= m.idade.value <= 35 }
  predicate De36a50(m: Membro) { m.idade.Some? && 36 <= m.idade.value <= 50 }
  predicate Acima50(m: Membro) { m.idade.Some? && m.idade.value >= 51 }

  /** The number of bands a member falls in. */
  function Bands(m: Membro): nat {
    (if Ate17(m) then 1 else 0) + (if De18a25(m) then 1 else 0) + (if De26a35(m) then 1 else 0)
    + (if De36a50(m) then 1 else 0) + (if Acima50(m) then 1 else 0)
  }

  /** The bands do not overlap and leave no age out: a member with an age is in exactly one, one without in none. */
  lemma BandsPartition(m: Membro)
    ensures Bands(m) == if TemIdade(m) then 1 else 0
  {
  }

  function FaixaSum(f: FaixasEtarias): nat {
    f.ate17 + f.de18a25 + f.de26a35 + f.de36a50 + f.acima50
  }

  lemma {:induction false} BandCountsAddUp(ms: seq<Membro>)
    ensures Count(ms, Ate17) + Count(ms, De18a25) + Count(ms, De26a35) + Count(ms, De36a50) + Count(ms, Acima50)
            == Count(ms, TemIdade)
  {
    if ms != [] {
      BandCountsAddUp(ms[..|ms| - 1]);
      BandsPartition(ms[|ms| - 1]);
    }
  }

  /** The five band counts: together they count every member whose age is known, and no other. */
  function PorFaixaEtaria(ms: seq<Membro>): (f: FaixasEtarias)
    ensures f.ate17 == Count(ms, Ate17) && f.de18a25 == Count(ms, De18a25) && f.de26a35 == Count(ms, De26a35)
    ensures f.de36a50 == Count(ms, De36a50) && f.acima50 == Count(ms, Acima50)
    ensures FaixaSum(f) == Count(ms, TemIdade)
  {
    BandCountsAddUp(ms);
    FaixasEtarias(Count(ms, Ate17), Count(ms, De18a25), Count(ms, De26a35), Count(ms, De36a50), Count(ms, Acima50))
  }

  // -------------------------------------------------------------- ministries

  const TopMinisterios := 10

  /** The member has a ministry that is neither null nor empty. */
  predicate TemMinisterio(m: Membro) { m.ministerio.Some? && m.ministerio.value != "" }

  /** The ministry of each member that has one, in table order. */
  function Ministerios(ms: seq<Membro>): (ns: seq<string>)
    ensures forall i :: 0 <= i < |ns| ==> ns[i] != ""
  {
    var com := Filter(ms, TemMinisterio);
    seq(|com|, i requires 0 <= i < |com| => com[i].ministerio.value)
  }

  /** The number of members whose ministry is `n`. */
  function NoMinisterio(ms: seq<Membro>, n: string): nat {
    Occurrences(Ministerios(ms), n)
  }

  /** `por_ministerio`: ministries grouped with their member counts, most members first, at most ten. */
  function PorMinisterio(ms: seq<Membro>): (r: seq<(string, nat)>)
    ensures |r| <= TopMinisterios
  {
    Top(GroupCount(Ministerios(ms)), TopMinisterios)
  }

  /**
   * The ministry ranking: no empty or repeated name, totals non-increasing,
   * and each total the member count of its ministry.
   */
  lemma PorMinisterioShape(ms: seq<Membro>)
    ensures var r := PorMinisterio(ms);
            && (forall i :: 0 <= i < |r| ==> r[i].0 != "" && r[i].1 == NoMinisterio(ms, r[i].0) > 0)
            && NonIncreasing(r)
            && Distinct(Keys(r))
  {
    var names := Ministerios(ms);
    var t := GroupCount(names);
    var r := PorMinisterio(ms);
    GroupCountCorrect(names);
    TopShape(t, TopMinisterios);
    forall i | 0 <= i < |r| ensures r[i].0 != "" && r[i].1 == NoMinisterio(ms, r[i].0) > 0 {
      var j :| 0 <= j < |t| && t[j] == r[i];
      GroupTotals(names, j);
      assert Keys(t)[j] == r[i].0;
      assert r[i].0 in names;
      var k :| 0 <= k < |names| && names[k] == r[i].0;
    }
  }

  /** Every ministry left out of the ranking has no more members than any listed one, and ten are listed. */
  lemma PorMinisterioTop(ms: seq<Membro>, n: string)
    requires n in Ministerios(ms) && n !in Keys(PorMinisterio(ms))
    ensures |PorMinisterio(ms)| == TopMinisterios
    ensures forall i :: 0 <= i < TopMinisterios ==> PorMinisterio(ms)[i].1 >= NoMinisterio(ms, n)
  {
    var names := Ministerios(ms);
    GroupCountCorrect(names);
    TopLeftOut(GroupCount(names), TopMinisterios, n);
  }

  // --------------------------------------------------------------- the view

  datatype DashboardData = DashboardData(
    usuarios: ResumoUsuarios,
    membros: ResumoMembros,
    porGenero: seq<GeneroItem>,
    porFaixaEtaria: FaixasEtarias,
    porMinisterio: seq<(string, nat)>)

  /** `dashboard_view` without the clock-dependent "recent members" figure. */
  function DashboardView(us: seq<Usuario>, ms: seq<Membro>): (d: DashboardData)
    ensures d.usuarios.inativos >= 0
    ensures d.membros.ativos + d.membros.inativos == d.membros.total == |ms|
    ensures d.membros.batizados <= d.membros.total
    ensures FaixaSum(d.porFaixaEtaria) <= d.membros.total
    ensures Totals(d.porGenero) == d.membros.total
    ensures |d.porMinisterio| <= TopMinisterios
  {
    PorGeneroCorrect(ms);
    CountMonotone(ms, TemIdade, Qualquer);
    CountPartition(ms, Qualquer, (m: Membro) => false);
    CountNone(ms, (m: Membro) => false);
    DashboardData(ContarUsuarios(us), ContarMembros(ms), PorGenero(ms), PorFaixaEtaria(ms), PorMinisterio(ms))
  }
}
