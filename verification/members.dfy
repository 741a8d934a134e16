/**
 * The backend's records: a system user (`Usuario`) and a congregation
 * member (`Membro`), with the field constraints the database model declares,
 * the defaults a new record receives, and the uniqueness of a member's CPF.
 */
module Members {
  import opened Wrappers

  /** A calendar date as stored in a `DateField`; calendar validity is not modelled. */
  datatype Date = Date(year: int, month: int, day: int)

  /** `GENERO_CHOICES`: the one-letter codes and their display names, in declaration order. */
  const GeneroChoices: seq<(string, string)> :=
    [("M", "Masculino"), ("F", "Feminino"), ("O", "Outro"), ("N", "Prefere não informar")]

  /** The default code of both records' `genero`. */
  const GeneroDefault := "N"

  const NomeMaxLength := 255
  const CpfMaxLength := 14
  const RgMaxLength := 20
  const TelefoneMaxLength := 20
  const MinisterioMaxLength := 255
  /** An `EmailField` without `max_length` takes Django's default of 254 characters. */
  const EmailMaxLength := 254

  /** A code is one of the declared choices. */
  predicate ValidGenero(g: string) {
    exists i :: 0 <= i < |GeneroChoices| && GeneroChoices[i].0 == g
  }

  /** The valid codes are exactly M, F, O and N. */
  lemma ValidGeneroCodes(g: string)
    ensures ValidGenero(g) <==> g in {"M", "F", "O", "N"}
  {
    if g in {"M", "F", "O", "N"} {
      if g == "M" { assert GeneroChoices[0].0 == g; }
      else if g == "F" { assert GeneroChoices[1].0 == g; }
      else if g == "O" { assert GeneroChoices[2].0 == g; }
      else { assert GeneroChoices[3].0 == g; }
    }
  }

  /** A `PositiveIntegerField(null=True)`: absent, or not negative. */
  predicate ValidIdade(idade: Option<int>) {
    idade.None? || idade.value >= 0
  }

  /** An optional `CharField(max_length = n, null = True, blank = True)`. */
  predicate OptionalText(t: Option<string>, maxLength: nat) {
    t.None? || |t.value| <= maxLength
  }

  /** A system user: the fields the application adds to the framework's user, and its active flag. */
  datatype Usuario = Usuario(username: string, isActive: bool, genero: string, idade: Option<int>)

  predicate ValidUsuario(u: Usuario) {
    ValidGenero(u.genero) && ValidIdade(u.idade)
  }

  /** A member of the congregation, one field per column; `responsavel` is the responsible user's key. */
  datatype Membro = Membro(
    id: nat,
    responsavel: Option<nat>,
    nomeCompleto: string,
    cpf: string,
    rg: Option<string>,
    dataNascimento: Date,
    endereco: Option<string>,
    telefone: Option<string>,
    email: Option<string>,
    batizado: bool,
    dataBatismo: Option<Date>,
    ministerio: Option<string>,
    ativo: bool,
    genero: string,
    idade: Option<int>)

  /**
   * The field constraints of a member: required name and CPF within their
   * lengths, optional texts within theirs, a declared gender code and an
   * age that is absent or not negative.
   */
  predicate ValidMembro(m: Membro) {
    && 0 < |m.nomeCompleto| <= NomeMaxLength
    && 0 < |m.cpf| <= CpfMaxLength
    && OptionalText(m.rg, RgMaxLength)
    && OptionalText(m.telefone, TelefoneMaxLength)
    && OptionalText(m.email, EmailMaxLength)
    && OptionalText(m.ministerio, MinisterioMaxLength)
    && ValidGenero(m.genero)
    && ValidIdade(m.idade)
  }

  /** A new user as the model's defaults leave it. */
  function NovoUsuario(username: string): (u: Usuario)
    ensures u.username == username && u.isActive
    ensures ValidUsuario(u)
    ensures u.genero == "N" && u.idade.None?
  {
    assert GeneroChoices[3].0 == GeneroDefault;
    Usuario(username, true, GeneroDefault, None)
  }

  /**
   * A new member given only its required fields: not baptised, active,
   * gender "prefers not to say", every optional field absent.
   */
  function NovoMembro(id: nat, nomeCompleto: string, cpf: string, dataNascimento: Date): (m: Membro)
    ensures !m.batizado && m.ativo && m.genero == "N"
    ensures m.idade.None? && m.ministerio.None? && m.rg.None? && m.email.None?
    ensures m.telefone.None? && m.endereco.None? && m.dataBatismo.None? && m.responsavel.None?
    ensures m.id == id && m.nomeCompleto == nomeCompleto && m.cpf == cpf && m.dataNascimento == dataNascimento
    ensures ValidMembro(m) <==> 0 < |nomeCompleto| <= NomeMaxLength && 0 < |cpf| <= CpfMaxLength
  {
    assert GeneroChoices[3].0 == GeneroDefault;
    Membro(id, None, nomeCompleto, cpf, None, dataNascimento, None, None, None, false, None, None, true, GeneroDefault, None)
  }

  /** No two members share a CPF (the column's unique constraint). */
  predicate UniqueCpfs(ms: seq<Membro>) {
    forall i, j :: 0 <= i < j < |ms| ==> ms[i].cpf != ms[j].cpf
  }

  /** Some member already holds this CPF. */
  predicate CpfTaken(ms: seq<Membro>, cpf: string) {
    exists i :: 0 <= i < |ms| && ms[i].cpf == cpf
  }

  /** Why the table refuses a row. */
  datatype InsertError = InvalidField | DuplicateCpf

  /**
   * Saving a new member: refused when a field constraint fails or the CPF is
   * already in the table, appended otherwise.
   */
  function Insert(ms: seq<Membro>, m: Membro): (r: Result<seq<Membro>, InsertError>)
    ensures !ValidMembro(m) ==> r == Failure(InvalidField)
    ensures ValidMembro(m) && CpfTaken(ms, m.cpf) ==> r == Failure(DuplicateCpf)
    ensures r.Success? <==> ValidMembro(m) && !CpfTaken(ms, m.cpf)
    ensures r.Success? ==> r.value == ms + [m]
  {
    if !ValidMembro(m) then Failure(InvalidField)
    else if CpfTaken(ms, m.cpf) then Failure(DuplicateCpf)
    else Success(ms + [m])
  }

  /** Saving keeps every member valid and every CPF unique. */
  lemma InsertKeepsTable(ms: seq<Membro>, m: Membro)
    requires UniqueCpfs(ms)
    requires forall i :: 0 <= i < |ms| ==> ValidMembro(ms[i])
    requires Insert(ms, m).Success?
    ensures UniqueCpfs(Insert(ms, m).value)
    ensures forall i :: 0 <= i < |Insert(ms, m).value| ==> ValidMembro(Insert(ms, m).value[i])
  {
    var r := Insert(ms, m).value;
    forall i, j | 0 <= i < j < |r| ensures r[i].cpf != r[j].cpf {
      if j == |ms| {
        assert r[i] == ms[i];
      } else {
        assert r[i] == ms[i] && r[j] == ms[j];
      }
    }
  }
}
