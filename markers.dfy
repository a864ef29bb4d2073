/** The markers of the line-oriented listing text: the tool layer writes
    them and the data-structure service reads them back. Each glyph is one
    code point here (two UTF-16 units in Java, hence the source's
    `substring(2)` after a glyph). */
module ListingMarkers {
  const PackageGlyph: char := '📦'
  const StarGlyph: char := '⭐'
  const ForkGlyph: char := '🔱'
  const IssueGlyph: char := '🐛'
  const LockGlyph: char := '🔒'
  const GlobeGlyph: char := '🌐'
  const CheckGlyph: char := '✅'
  const CrossGlyph: char := '❌'
  const FolderGlyph: char := '📁'
  const PageGlyph: char := '📄'

  const DescriptionLabel: string := "Descrição:"
  const UrlLabel: string := "URL:"
  const LanguageLabel: string := "Linguagem:"
  const PrivateWord: string := "Privado"
  const PublicWord: string := "Público"

  /** A repository listing containing this word anywhere is read as "no
      repositories"; the tool's empty answer starts with it. */
  const NoResults: string := "Nenhum"

  /** The end of every size annotation of a file entry. */
  const BytesClose: string := "bytes)"
  const BytesWord: string := "bytes"
}
