/**
 * Restricting the popularity and information tables to a set of artists
 * (`df_um[df_um['nome'].isin(artists)]` and the `nome`-or-`banda` variant).
 */
module SideTables {
  import opened Wrappers
  import opened Frames
  import opened Tables

  function NomeIn(artists: set<string>): PopRow -> bool {
    (p: PopRow) => p.nome in artists
  }

  function NomeOrBandaIn(artists: set<string>): InfoRow -> bool {
    (r: InfoRow) => r.nome in artists || IsIn(r.banda, artists)
  }

  /** The popularity rows whose `nome` is one of `artists`, in table order. */
  function PopularityOf(pop: seq<PopRow>, artists: set<string>): (r: seq<PopRow>)
    ensures forall p :: p in r <==> p in pop && p.nome in artists
    ensures IsSubseq(r, pop)
  {
    WhereIsSubseq(pop, NomeIn(artists));
    Where(pop, NomeIn(artists))
  }

  /** The information rows whose `nome` or `banda` is one of `artists`, in table order. */
  function InfoOf(info: seq<InfoRow>, artists: set<string>): (r: seq<InfoRow>)
    ensures forall i :: i in r <==> i in info && (i.nome in artists || IsIn(i.banda, artists))
    ensures IsSubseq(r, info)
  {
    WhereIsSubseq(info, NomeOrBandaIn(artists));
    Where(info, NomeOrBandaIn(artists))
  }

  /** A kept popularity row keeps every copy it has in the table; a dropped one has none. */
  lemma PopularityOfMultiplicity(pop: seq<PopRow>, artists: set<string>, p: PopRow)
    ensures multiset(PopularityOf(pop, artists))[p] == if p.nome in artists then multiset(pop)[p] else 0
  {
    WhereMultiplicity(pop, NomeIn(artists), p);
  }

  /** A kept information row keeps every copy it has in the table; a dropped one has none. */
  lemma InfoOfMultiplicity(info: seq<InfoRow>, artists: set<string>, i: InfoRow)
    ensures multiset(InfoOf(info, artists))[i] == if i.nome in artists || IsIn(i.banda, artists) then multiset(info)[i] else 0
  {
    WhereMultiplicity(info, NomeOrBandaIn(artists), i);
  }

  /** Fewer artists keep fewer popularity rows, in the same order. */
  lemma PopularityOfMonotone(pop: seq<PopRow>, fewer: set<string>, more: set<string>)
    requires fewer <= more
    ensures IsSubseq(PopularityOf(pop, fewer), PopularityOf(pop, more))
  {
    WhereIsMonotone(pop, NomeIn(fewer), NomeIn(more));
  }
}
