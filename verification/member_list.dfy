/**
 * The member lists of the two listing pages: deleting a member by id (from
 * the locally stored list, or after the server confirms) and the
 * case-insensitive search over name and e-mail.
 */
module MemberList {
  import opened Seqs
  import opened Text
  import opened Wrappers

  /**
   * A member as a listing page holds it: its id and the two fields the
   * search reads, either of which may be missing. Ids are numbers, compared
   * with `!==`.
   */
  datatype MemberEntry = MemberEntry(id: int, nomeCompleto: Option<string>, email: Option<string>)

  // ---------------------------------------------------------------- deletion

  /** `membros.filter((m) => m.id !== id)`. */
  function Excluir(membros: seq<MemberEntry>, id: int): (r: seq<MemberEntry>)
    ensures forall i :: 0 <= i < |r| ==> r[i].id != id
    ensures forall i :: 0 <= i < |membros| && membros[i].id != id ==> membros[i] in r
  {
    Filter(membros, (m: MemberEntry) => m.id != id)
  }

  /** The number of members with id `id`. */
  function WithId(membros: seq<MemberEntry>, id: int): nat {
    Count(membros, (m: MemberEntry) => m.id == id)
  }

  /**
   * Deleting keeps the others in their order and removes exactly the
   * members with that id: the result is a subsequence that is shorter by
   * their number.
   */
  lemma ExcluirKeepsOthers(membros: seq<MemberEntry>, id: int)
    ensures Subseq(Excluir(membros, id), membros)
    ensures |Excluir(membros, id)| == |membros| - WithId(membros, id)
  {
    var keep := (m: MemberEntry) => m.id != id;
    FilterIsSubseq(membros, keep);
    FilterLength(membros, keep);
    CountPartition(membros, keep, (m: MemberEntry) => m.id == id);
  }

  /** Deleting an id no member has changes nothing. */
  lemma ExcluirAbsent(membros: seq<MemberEntry>, id: int)
    requires forall i :: 0 <= i < |membros| ==> membros[i].id != id
    ensures Excluir(membros, id) == membros
  {
    FilterAll(membros, (m: MemberEntry) => m.id != id);
  }

  /** Deleting the same id twice is deleting it once. */
  lemma ExcluirIdempotent(membros: seq<MemberEntry>, id: int)
    ensures Excluir(Excluir(membros, id), id) == Excluir(membros, id)
  {
    FilterIdempotent(membros, (m: MemberEntry) => m.id != id);
  }

  /** What `handleExcluir` leaves: the list shown and the list written back to storage. */
  datatype Excluded = Excluded(shown: seq<MemberEntry>, stored: seq<MemberEntry>)

  /** `handleExcluir`: the filtered list becomes both the page's state and the stored list. */
  function HandleExcluir(membros: seq<MemberEntry>, id: int): (r: Excluded)
    ensures r.shown == r.stored
    ensures forall i :: 0 <= i < |r.stored| ==> r.stored[i].id != id
    ensures Subseq(r.stored, membros) && |r.stored| == |membros| - WithId(membros, id)
  {
    var updated := Excluir(membros, id);
    ExcluirKeepsOthers(membros, id);
    Excluded(updated, updated)
  }

  /** How the DELETE request ended: the server answered (ok or not), or the request itself failed. */
  datatype DeleteOutcome = Answered(ok: bool) | NetworkError(message: string)

  /** What `handleDelete` leaves: the list and the alert shown, if any. */
  datatype Deleted = Deleted(membros: seq<MemberEntry>, alert: Option<string>)

  const DeleteFailedMessage := "Falha ao excluir"

  /**
   * `handleDelete`: nothing happens unless the user confirms; the member
   * leaves the list only when the server answered with success; any failure
   * shows its message and keeps the list. `membros` is the list the handler
   * captured when the page rendered, which is what `membros.filter` reads
   * after the `await`: a second delete that overlaps this one starts from
   * the same captured list, so one of the two removals is lost.
   */
  function HandleDelete(membros: seq<MemberEntry>, id: int, confirmed: bool, outcome: DeleteOutcome): (r: Deleted)
    ensures !confirmed ==> r == Deleted(membros, None)
    ensures confirmed && outcome == Answered(true) ==> r == Deleted(Excluir(membros, id), None)
    ensures confirmed && outcome == Answered(false) ==> r == Deleted(membros, Some(DeleteFailedMessage))
    ensures confirmed && outcome.NetworkError? ==> r == Deleted(membros, Some(outcome.message))
    ensures r.membros != membros ==> confirmed && outcome == Answered(true)
  {
    if !confirmed then Deleted(membros, None)
    else match outcome
      case Answered(ok) =>
        if ok then Deleted(Excluir(membros, id), None) else Deleted(membros, Some(DeleteFailedMessage))
      case NetworkError(message) => Deleted(membros, Some(message))
  }

  // ------------------------------------------------------------------ search

  /** `field?.toLowerCase().includes(busca.toLowerCase())`: false for a missing field. */
  predicate FieldMatches(field: Option<string>, busca: string) {
    field.Some? && Contains(Lower(field.value), Lower(busca))
  }

  /** The search keeps a member whose name or e-mail contains the search text, ignoring case. */
  predicate Matches(m: MemberEntry, busca: string) {
    FieldMatches(m.nomeCompleto, busca) || FieldMatches(m.email, busca)
  }

  /**
   * `membrosFiltrados`: the members the search matches; one with neither a
   * name nor an e-mail is never among them, whatever the search text.
   */
  function Filtrar(membros: seq<MemberEntry>, busca: string): (r: seq<MemberEntry>)
    ensures forall i :: 0 <= i < |r| ==> Matches(r[i], busca) && r[i] in membros
    ensures forall i :: 0 <= i < |r| ==> r[i].nomeCompleto.Some? || r[i].email.Some?
    ensures forall i :: 0 <= i < |membros| ==> (membros[i] in r <==> Matches(membros[i], busca))
  {
    Filter(membros, (m: MemberEntry) => Matches(m, busca))
  }

  /** The search result keeps the list's order. */
  lemma FiltrarKeepsOrder(membros: seq<MemberEntry>, busca: string)
    ensures Subseq(Filtrar(membros, busca), membros)
  {
    FilterIsSubseq(membros, (m: MemberEntry) => Matches(m, busca));
  }

  /** With an empty search, every member with a name or an e-mail is found, and only those. */
  lemma FiltrarEmpty(membros: seq<MemberEntry>, i: nat)
    requires i < |membros|
    ensures membros[i] in Filtrar(membros, "") <==> membros[i].nomeCompleto.Some? || membros[i].email.Some?
  {
    if membros[i].nomeCompleto.Some? {
      ContainsEmpty(Lower(membros[i].nomeCompleto.value));
    }
    if membros[i].email.Some? {
      ContainsEmpty(Lower(membros[i].email.value));
    }
  }

  /** The case of the search text does not matter. */
  lemma FiltrarIgnoresCase(membros: seq<MemberEntry>, busca: string)
    ensures Filtrar(membros, Lower(busca)) == Filtrar(membros, busca)
  {
    LowerIdempotent(busca);
    FilterCongruent(membros, (m: MemberEntry) => Matches(m, Lower(busca)), (m: MemberEntry) => Matches(m, busca));
  }
}
