/**
 * The three tables the pages load: songs (`songs_info.csv`), artist popularity
 * (`artistas_popularidade.csv`) and artist information (`artistas_info.csv`).
 * Only the columns the filtering and aggregation read are kept; a cell that
 * may be missing is an `Option`.
 */
module Tables {
  import opened Wrappers

  /** One row of the songs table: columns `artist`, `title`, `Album`, `genre`, `release_year`. */
  datatype Song = Song(
    artist: Option<string>,
    title: Option<string>,
    album: Option<string>,
    genre: Option<string>,
    releaseYear: Option<int>)

  /** One row of the popularity table: `nome`, `popularidade`, `seguidores`, `tipo`. */
  datatype PopRow = PopRow(nome: string, popularidade: int, seguidores: int, tipo: string)

  /** One row of the artist information table: `nome` and the `banda` the artist belongs to, if any. */
  datatype InfoRow = InfoRow(nome: string, banda: Option<string>)

  function Artist(s: Song): Option<string> { s.artist }
  function Title(s: Song): Option<string> { s.title }
  function Album(s: Song): Option<string> { s.album }
  function Genre(s: Song): Option<string> { s.genre }
  function ReleaseYear(s: Song): Option<int> { s.releaseYear }

  function Popularity(p: PopRow): int { p.popularidade }
  function Followers(p: PopRow): int { p.seguidores }
}
