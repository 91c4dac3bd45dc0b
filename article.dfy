/** The per-document title guess and the markdown article written for it. */
module Article {

  /** Longest title kept, in characters. */
  const TitleLimit: nat := 120

  /** `s.split(sep)[0]`: everything before the first `sep`, or all of `s`. */
  function BeforeFirst(s: string, sep: char): (head: string)
    ensures |head| <= |s| && head == s[..|head|]
    ensures forall i :: 0 <= i < |head| ==> head[i] != sep
    ensures |head| == |s| || s[|head|] == sep
  {
    if |s| == 0 || s[0] == sep then [] else [s[0]] + BeforeFirst(s[1..], sep)
  }

  /** `text.split(".")[0][:120]`. */
  function Title(text: string): string {
    var head := BeforeFirst(text, '.');
    if |head| <= TitleLimit then head else head[..TitleLimit]
  }

  /** The title is a prefix of the text of at most 120 characters without a
      `.`, and it stops only at the limit, at a `.` or at the end of the
      text, so no longer prefix has those properties. */
  lemma TitleIsPrefix(text: string)
    ensures var t := Title(text);
      |t| <= TitleLimit && t == text[..|t|] &&
      (forall i :: 0 <= i < |t| ==> t[i] != '.') &&
      (|t| == TitleLimit || |t| == |text| || text[|t|] == '.')
  {
    var head := BeforeFirst(text, '.');
    if |head| > TitleLimit {
      assert head[..TitleLimit] == text[..TitleLimit];
    }
  }

  /** The markdown article: `# <title>`, a blank line, the text, a blank
      line, and the source attribution. */
  function Markdown(title: string, text: string, url: string): string {
    "# " + title + "\n\n" + text + "\n\n*(Source: " + url + ")*"
  }

  /** The article can be cut back into its three fields at offsets fixed by
      their lengths: the heading, the body and the source line. */
  lemma MarkdownFields(title: string, text: string, url: string)
    ensures var md := Markdown(title, text, url);
      var body := 2 + |title| + 2;
      |md| == |title| + |text| + |url| + 18 &&
      md[..2] == "# " && md[2..2 + |title|] == title &&
      md[2 + |title|..body] == "\n\n" &&
      md[body..body + |text|] == text &&
      md[body + |text|..body + |text| + 12] == "\n\n*(Source: " &&
      md[body + |text| + 12..|md| - 2] == url &&
      md[|md| - 2..] == ")*"
  {
    var md := Markdown(title, text, url);
    var body := 2 + |title| + 2;
    assert md == "# " + title + "\n\n" + text + "\n\n*(Source: " + url + ")*";
  }

  /** The first line of the article is the heading `# <title>` whenever the
      title holds no line break. */
  lemma MarkdownHeading(title: string, text: string, url: string)
    requires forall i :: 0 <= i < |title| ==> title[i] != '\n'
    ensures var md := Markdown(title, text, url);
      var line := BeforeFirst(md, '\n');
      line == "# " + title
  {
    var md := Markdown(title, text, url);
    var line := BeforeFirst(md, '\n');
    MarkdownFields(title, text, url);
    var heading := "# " + title;
    assert md[..|heading|] == heading;
    assert md[|heading|] == '\n';
    assert forall i :: 0 <= i < |heading| ==> heading[i] != '\n';

  }
}
