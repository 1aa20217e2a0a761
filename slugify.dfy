/** scripts/create.ts: `slugify` turns the title given on the command line
    into the directory name of a new article, `./content/<slug>/index.md`. */
module Slugify {
  import opened Prelude
  import Articles

  /** `toLowerCase` on the ASCII letters. */
  function Lower(c: char): (r: char)
    ensures 'A' <= c <= 'Z' ==> 'a' <= r <= 'z' && r as int == c as int + 32
    ensures !('A' <= c <= 'Z') ==> r == c
  {
    if 'A' <= c <= 'Z' then (c as int + 32) as char else c
  }

  function LowerAll(s: string): (r: string)
    ensures |r| == |s| && forall i :: 0 <= i < |s| ==> r[i] == Lower(s[i])
  {
    if s == [] then [] else [Lower(s[0])] + LowerAll(s[1..])
  }

  /** `\w` of a regular expression without the `u` flag. */
  predicate IsWord(c: char) {
    'a' <= c <= 'z' || 'A' <= c <= 'Z' || '0' <= c <= '9' || c == '_'
  }

  /** `\s`: the ECMAScript white space and line terminators. */
  predicate IsSpace(c: char) {
    var n := c as int;
    n == 0x09 || n == 0x0A || n == 0x0B || n == 0x0C || n == 0x0D || n == 0x20 || n == 0xA0
    || n == 0x1680 || 0x2000 <= n <= 0x200A || n == 0x2028 || n == 0x2029 || n == 0x202F
    || n == 0x205F || n == 0x3000 || n == 0xFEFF
  }

  /** `.replace(/[^\w\s]/gi, "")` */
  function Strip(s: string): (r: string)
    ensures forall i :: 0 <= i < |r| ==> IsWord(r[i]) || IsSpace(r[i])
    ensures |r| <= |s|
  {
    if s == [] then []
    else if IsWord(s[0]) || IsSpace(s[0]) then [s[0]] + Strip(s[1..])
    else Strip(s[1..])
  }

  /** `.replace(/\s+/g, "-")`, continuing a run of white space when `inRun`. */
  function Hyphenate(s: string, inRun: bool): (r: string)
    ensures forall i :: 0 <= i < |r| ==> r[i] == '-' || (r[i] in s && !IsSpace(r[i]))
  {
    if s == [] then []
    else if IsSpace(s[0]) then (if inRun then Hyphenate(s[1..], true) else "-" + Hyphenate(s[1..], true))
    else [s[0]] + Hyphenate(s[1..], false)
  }

  /** `slugify` */
  function Slug(title: string): (r: string)
    // Only lower-case letters, digits, `_` and `-` are left.
    ensures forall i :: 0 <= i < |r| ==> 'a' <= r[i] <= 'z' || '0' <= r[i] <= '9' || r[i] == '_' || r[i] == '-'
  {
    var stripped := Strip(LowerAll(title));
    LowerStrip(title);
    Hyphenate(stripped, false)
  }

  lemma LowerStrip(title: string)
    ensures forall c :: c in Strip(LowerAll(title)) ==> !('A' <= c <= 'Z')
  {
    StripMembers(LowerAll(title));
  }

  /** `Strip` keeps exactly the word and white-space characters: white space
      survives to be hyphenated, everything else is dropped. */
  lemma {:induction false} StripMembers(s: string)
    ensures forall c :: c in Strip(s) <==> c in s && (IsWord(c) || IsSpace(c))
  {
    if s != [] {
      StripMembers(s[1..]);
      assert s == [s[0]] + s[1..];
    }
  }

  /** Every white-space character replaced by a hyphen: the first step of a
      reference reading of `.replace(/\s+/g, "-")`. */
  function Dashes(s: string): (r: string)
    ensures |r| == |s|
    ensures forall i :: 0 <= i < |s| ==> (IsSpace(s[i]) ==> r[i] == '-') && (!IsSpace(s[i]) ==> r[i] == s[i])
  {
    if s == [] then [] else [if IsSpace(s[0]) then '-' else s[0]] + Dashes(s[1..])
  }

  /** Every run of hyphens collapsed to one: the second step. */
  function Collapse(t: string): (r: string)
    ensures |r| <= |t|
    ensures t != [] ==> r != [] && r[0] == t[0]
  {
    if |t| <= 1 then t
    else if t[0] == '-' && t[1] == '-' then Collapse(t[1..])
    else [t[0]] + Collapse(t[1..])
  }

  /** The string without a leading hyphen. */
  function DropDash(t: string): (r: string)
    ensures t != [] && t[0] == '-' ==> [t[0]] + r == t
    ensures t == [] || t[0] != '-' ==> r == t
  {
    if t != [] && t[0] == '-' then t[1..] else t
  }

  /** Where the hyphens go: on a string without hyphens of its own, the
      one-pass `Hyphenate` is the two-step reference — white space to
      hyphens, then runs of hyphens collapsed — less the leading hyphen when
      it continues a run. */
  lemma {:induction false} HyphenateReference(s: string, inRun: bool)
    requires '-' !in s
    ensures Hyphenate(s, inRun) == if inRun then DropDash(Collapse(Dashes(s))) else Collapse(Dashes(s))
  {
    if s != [] {
      var rest := Dashes(s[1..]);
      assert Dashes(s) == [if IsSpace(s[0]) then '-' else s[0]] + rest;
      HyphenateReference(s[1..], IsSpace(s[0]));
      if !IsSpace(s[0]) {
        assert s[0] in s;
        CollapseCons(s[0], rest);
      } else {
        CollapseCons('-', rest);
      }
    }
  }

  /** One step of `Collapse`: a character in front of a collapsed string. */
  lemma CollapseCons(d: char, t: string)
    ensures t == [] ==> Collapse([d] + t) == [d]
    ensures t != [] && d == '-' && t[0] == '-' ==> Collapse([d] + t) == Collapse(t)
    ensures t != [] && !(d == '-' && t[0] == '-') ==> Collapse([d] + t) == [d] + Collapse(t)
  {
    assert ([d] + t)[1..] == t;
  }

  /** `slugify` agrees with the reference reading of its three replacements. */
  lemma SlugReference(title: string)
    ensures Slug(title) == Collapse(Dashes(Strip(LowerAll(title))))
  {
    StripNoHyphen(LowerAll(title));
    HyphenateReference(Strip(LowerAll(title)), false);
  }

  /** The word characters of a string, in order. */
  function Words(s: string): (r: string)
    ensures forall c :: c in r ==> IsWord(c)
  {
    if s == [] then [] else (if IsWord(s[0]) then [s[0]] else []) + Words(s[1..])
  }

  /** The slug keeps every word character of the lower-cased title, in
      order; the only other characters are the hyphens. */
  lemma SlugWords(title: string)
    ensures Words(Slug(title)) == Words(LowerAll(title))
  {
    var lowered := LowerAll(title);
    StripWords(lowered);
    HyphenateWords(Strip(lowered), false);
  }

  lemma {:induction false} StripWords(s: string)
    ensures Words(Strip(s)) == Words(s)
  {
    if s != [] {
      StripWords(s[1..]);
      var keep := IsWord(s[0]) || IsSpace(s[0]);
      if keep {
        var r := [s[0]] + Strip(s[1..]);
        assert Strip(s) == r;
        assert r[1..] == Strip(s[1..]);
        assert Words(r) == (if IsWord(s[0]) then [s[0]] else []) + Words(Strip(s[1..]));
      } else {
        assert Strip(s) == Strip(s[1..]);
        assert !IsWord(s[0]);
      }
    }
  }

  lemma {:induction false} HyphenateWords(s: string, inRun: bool)
    ensures Words(Hyphenate(s, inRun)) == Words(s)
  {
    if s != [] {
      HyphenateWords(s[1..], IsSpace(s[0]));
      if IsSpace(s[0]) {
        assert !IsWord(s[0]);
        if !inRun {
          assert ("-" + Hyphenate(s[1..], true))[1..] == Hyphenate(s[1..], true);
        }
      } else {
        assert ([s[0]] + Hyphenate(s[1..], false))[1..] == Hyphenate(s[1..], false);
      }
    }
  }

  /** No two hyphens are adjacent. */
  predicate NoDoubleHyphen(r: string) {
    forall i :: 0 <= i < |r| - 1 ==> !(r[i] == '-' && r[i + 1] == '-')
  }

  /** A run of white space yields one hyphen, and the title's own hyphens
      are stripped first, so a slug never has two hyphens in a row. */
  lemma SlugSingleHyphens(title: string)
    ensures NoDoubleHyphen(Slug(title))
  {
    var stripped := Strip(LowerAll(title));
    StripNoHyphen(LowerAll(title));
    HyphenateSingle(stripped, false);
    assert Slug(title) == Hyphenate(stripped, false);
  }

  lemma {:induction false} StripNoHyphen(s: string)
    ensures '-' !in Strip(s)
  {
    if s != [] {
      StripNoHyphen(s[1..]);
    }
  }

  /** Without hyphens in its input, `Hyphenate` writes no two in a row, and
      none first while continuing a run. */
  lemma {:induction false} HyphenateSingle(s: string, inRun: bool)
    requires '-' !in s
    ensures NoDoubleHyphen(Hyphenate(s, inRun))
    ensures inRun && Hyphenate(s, inRun) != [] ==> Hyphenate(s, inRun)[0] != '-'
  {
    if s != [] {
      var r := Hyphenate(s, inRun);
      var rest := Hyphenate(s[1..], IsSpace(s[0]));
      HyphenateSingle(s[1..], IsSpace(s[0]));
      if IsSpace(s[0]) && inRun {
        assert r == rest;
      } else {
        var c := if IsSpace(s[0]) then '-' else s[0];
        assert r == [c] + rest;
        assert c == '-' ==> rest == [] || rest[0] != '-';
        forall i | 0 <= i < |r| - 1
          ensures !(r[i] == '-' && r[i + 1] == '-')
        {
          if i > 0 {
            assert r[i] == rest[i - 1] && r[i + 1] == rest[i];
          }
        }
      }
    }
  }

  /** Slugs are not stable under `slugify`: the hyphen it writes is stripped
      on a second pass. */
  lemma NotIdempotent()
    ensures Slug("A b") == "a-b"
    ensures Slug("a-b") == "ab"
  {
    assert LowerAll("A b") == "a b";
    assert Strip("a b") == "a b";
    assert LowerAll("a-b") == "a-b";
    assert Strip("a-b") == "ab";
  }

  /** `const [title] = Deno.args; if (!title) throw ...`: the slug of the
      first argument, or the error when it is missing or empty. */
  function CreateSlug(args: seq<string>): (r: Result<string>)
    ensures r.Err? <==> args == [] || args[0] == ""
    ensures r.Err? ==> r.message == "Please provide title"
    ensures r.Ok? ==> r.value == Slug(args[0])
  {
    if args == [] || args[0] == "" then Err("Please provide title") else Ok(Slug(args[0]))
  }

  /** The new article is written to `<slug>/index.md` under `./content`.
      `loadFS` (lib/memfs.ts), which content/mod.ts reads that directory with,
      keys it `/<slug>/index.md`, so its URL is `/<slug>`; a key relative to
      the directory, as lib/readDir.ts writes them, gives the slug itself. */
  lemma CreatedUrl(args: seq<string>)
    requires CreateSlug(args).Ok?
    ensures Articles.UrlOf("/" + CreateSlug(args).value + "/index.md") == "/" + CreateSlug(args).value
    ensures Articles.UrlOf(CreateSlug(args).value + "/index.md") == CreateSlug(args).value
  {
    var slug := CreateSlug(args).value;
    assert ("/" + slug + "/index.md")[|slug| + 1..] == "/index.md";
    assert (slug + "/index.md")[|slug|..] == "/index.md";
  }
}
