/** A snippet pack: the keyword prefix and suffix the launcher wraps around
    every keyword, and the snippets in pack order. */
module Pack {
  import opened Snippets

  datatype SnippetPack = SnippetPack(prefix: string, suffix: string, snippets: seq<AlfredSnippet>)
}
