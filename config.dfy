/**
 * Configuration values consumed by the indexing engine (config/TextPattern.go,
 * config/Configuration.go). The compiled regular expression of a text pattern
 * is not modelled: its output is given to the model as data (see PhysicalFiles).
 */
module Config {

  /** A text pattern: which capture group supplies the index key, and the pattern text. */
  datatype TextPattern = TextPattern(key: int, pattern: string)

  /** File-name substrings that select files, root paths to walk, and the text patterns. */
  datatype Configuration = Configuration(
    filePatterns: seq<string>,
    paths: seq<string>,
    textPatterns: seq<TextPattern>)

}
