/**
 * The `kategori_tbstatistik` router's table resolution: the table is
 * whichever of two known names exists. Its handlers write the body without
 * column filtering (PlainCrud), read and delete by `id` (Crud).
 */
module KategoriTbstatistik {
  import opened Wrappers
  import opened Schema

  const Candidates := ["kategori_tbstatistik", "kategori_statistik"]

  /**
   * `resolveTable`: `kategori_tbstatistik` if a probe finds it, else
   * `kategori_statistik` if a probe finds that, else `kategori_tbstatistik`;
   * a probe that throws counts as not finding its table.
   */
  method ResolveTable(catalog: seq<string>, failing: set<string>) returns (table: string)
    ensures TableFound("kategori_tbstatistik", catalog, failing) ==> table == "kategori_tbstatistik"
    ensures !TableFound("kategori_tbstatistik", catalog, failing) && TableFound("kategori_statistik", catalog, failing) ==>
      table == "kategori_statistik"
    ensures !TableFound("kategori_statistik", catalog, failing) ==> table == "kategori_tbstatistik"
  {
    var probed := ProbeCandidates(Candidates, catalog, failing);
    table := probed.GetOr(Candidates[0]);
  }
}
