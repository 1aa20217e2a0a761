/** lib/blog.ts: `buildBlog` loads `./content`, reading each markdown file
    from the path the directory listing gives, and writes content/mod.ts as
    a module that embeds the JSON of the articles and of the static files. */
module BlogBuild {
  import opened Prelude
  import opened Dicts
  import opened Articles
  import opened Ingestion

  /** `extract(new TextDecoder().decode(await Deno.readFile(path)))`; a read
      failure is thrown inside the `try` like a parse failure. */
  function Read(readFile: string -> Result<Bytes>, decode: Bytes -> string,
                extract: string -> Result<FrontMatter>): string -> Result<FrontMatter> {
    (path: string) =>
      match readFile(path)
      case Err(m) => Err(m)
      case Ok(contents) => extract(decode(contents))
  }

  /** A markdown file that cannot be read is reported like any other failure,
      with its path appended, and nothing is rendered for it. */
  lemma ReadFailure(path: string, file: string, readFile: string -> Result<Bytes>, decode: Bytes -> string,
                    extract: string -> Result<FrontMatter>, marked: (string, string) -> Result<string>)
    requires readFile(file).Err?
    ensures Document(path, file, Read(readFile, decode, extract), marked)
              == Err(Annotate(readFile(file).message, path))
  {
  }

  /** The generated module text, around the two JSON documents. */
  const Header: string :=
    "\n// DO NOT EDIT. This file is generated by fresh.\n"
    + "// This file SHOULD be checked into source version control.\n"
    + "// This file is automatically updated during development when running `dev.ts`.\n"
    + "\nimport { Article } from \"$/types.ts\";\n"
    + "export const content:Record<string, Article> = "

  const Middle: string := ";\nexport const staticContent:Record<string, string> = "

  const Trailer: string :=
    ";\n\nexport const articlesByPubDate = Object.values(content).sort(\n"
    + "    (a, b) => new Date(b.date).getTime() - new Date(a.date).getTime()\n"
    + ");\n\nexport const articlesByTag = Object.values(content).reduce((a, c) => {\n"
    + "    for (const tag of c.tags) {\n"
    + "        if (!(tag in a)) {\n"
    + "            a[tag] = [];\n"
    + "        }\n"
    + "        a[tag].push(c);\n"
    + "        a[tag].sort((a, b) => new Date(b.date).getTime() - new Date(a.date).getTime());\n"
    + "    }\n"
    + "    return a;\n"
    + "}, {} as Record<string, Article[]>);\n"

  /** `moduleContents` */
  function ModuleText(contentJson: string, staticJson: string): string {
    Header + (contentJson + (Middle + (staticJson + Trailer)))
  }

  /** The module text embeds both JSON documents whole, at positions fixed by
      their lengths, so each can be read back out of it. */
  lemma ModuleTextEmbeds(contentJson: string, staticJson: string)
    ensures var r := ModuleText(contentJson, staticJson);
            var i := |Header|;
            var j := i + |contentJson| + |Middle|;
            && |r| == j + |staticJson| + |Trailer|
            && r[..i] == Header
            && r[i..i + |contentJson|] == contentJson
            && r[i + |contentJson|..j] == Middle
            && r[j..j + |staticJson|] == staticJson
            && r[j + |staticJson|..] == Trailer
  {
    Pieces(Header, contentJson, Middle, staticJson, Trailer);
  }

  /** `buildBlog`, up to the `Deno.writeFile`: the module text, or the first
      document's failure. `json` and `jsonStatic` are `JSON.stringify` on the
      two dictionaries. */
  method Build(raw: Dict<string>, readFile: string -> Result<Bytes>, decode: Bytes -> string,
               extract: string -> Result<FrontMatter>, marked: (string, string) -> Result<string>,
               json: Dict<Article> -> string, jsonStatic: Dict<string> -> string) returns (r: Result<string>)
    requires raw.Valid()
    ensures var site := IngestUpTo(raw, Empty(), Read(readFile, decode, extract), marked, |raw.keys|);
            && (r.Err? <==> site.Err?)
            && (r.Err? ==> r.message == site.message)
            && (r.Ok? ==> r.value == ModuleText(json(site.value.content), jsonStatic(site.value.staticContent)))
  {
    var site := Ingest(raw, Empty(), Read(readFile, decode, extract), marked);
    if site.Err? {
      return Err(site.message);
    }
    r := Ok(ModuleText(json(site.value.content), jsonStatic(site.value.staticContent)));
  }
}
