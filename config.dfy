/**
 * Parser configuration (`marker_config_t`, marker.h:31-42) and the library's
 * fixed limits (marker.c:10-13).
 */
module Configuration {
  const DefaultBufferSize: nat := 4096
  const MaxNestingDepth: nat := 32
  const MaxLineLength: nat := 4096
  /** URLs, labels and alt text of this length or more make a link or image construct fail. */
  const MaxLinkLength: nat := 2048

  /**
   * A value copied into each parser. `smartQuotes` and `maxNestingDepth` are
   * carried but never consulted by the converter.
   */
  datatype Config = Config(
    enableTables: bool,
    enableStrikethrough: bool,
    enableTaskLists: bool,
    enableAutolinks: bool,
    enableInlineHtml: bool,
    escapeHtml: bool,
    smartQuotes: bool,
    hardLineBreaks: bool,
    maxNestingDepth: nat,
    initialBufferSize: nat)

  /** `marker_config_init` (marker.c:85-99). */
  function Defaults(): (c: Config)
    ensures c.enableTables && c.enableStrikethrough && c.enableTaskLists
    ensures c.enableAutolinks && c.enableInlineHtml && c.escapeHtml
    ensures !c.smartQuotes && !c.hardLineBreaks
    ensures c.maxNestingDepth == 32 && c.initialBufferSize == 4096
  {
    Config(true, true, true, true, true, true, false, false, MaxNestingDepth, DefaultBufferSize)
  }
}
