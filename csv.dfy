/**
 * The CSV export of the calculation history (downloadHistoryAsCSV,
 * script.js:174-189): each history item becomes one line, wrapped in double
 * quotes with every quote inside doubled, under a one-line header. The data
 * URI encoding and the download itself are left to the browser.
 */
module CsvExport {
  import opened Wrappers

  const Quote: char := '"'

  /** The header line of the file. */
  const Header: string := "Cálculo"

  /** `item.replace(/"/g, '""')`: every quote doubled, everything else kept. */
  function Escape(s: string): (r: string)
    ensures |r| >= |s|
    ensures Quote !in s ==> r == s
  {
    if s == [] then []
    else (if s[0] == Quote then [Quote, Quote] else [s[0]]) + Escape(s[1..])
  }

  /** One CSV field: the escaped item between quotes. */
  function QuoteField(item: string): string
  {
    [Quote] + Escape(item) + [Quote]
  }

  /** Reading an escaped text back: a doubled quote is one quote, a lone quote is malformed. */
  function Unescape(s: string): Option<string>
  {
    if s == [] then Some([])
    else if s[0] != Quote then
      match Unescape(s[1..])
      case Some(rest) => Some([s[0]] + rest)
      case None => None
    else if |s| >= 2 && s[1] == Quote then
      match Unescape(s[2..])
      case Some(rest) => Some([Quote] + rest)
      case None => None
    else None
  }

  /** Reading a field back: strip the surrounding quotes, then undo the doubling. */
  function UnquoteField(field: string): Option<string>
  {
    if |field| >= 2 && field[0] == Quote && field[|field| - 1] == Quote
    then Unescape(field[1..|field| - 1])
    else None
  }

  /** Undoing the doubling gives back the original item. */
  lemma {:induction false} UnescapeEscape(s: string)
    ensures Unescape(Escape(s)) == Some(s)
  {
    if s != [] {
      UnescapeEscape(s[1..]);
      var e := Escape(s);
      if s[0] == Quote {
        assert e[2..] == Escape(s[1..]);
      } else {
        assert e[1..] == Escape(s[1..]);
      }
      assert [s[0]] + s[1..] == s;
    }
  }

  /** Every item survives the quoting: reading its field back gives the item. */
  lemma QuoteFieldRoundTrip(item: string)
    ensures UnquoteField(QuoteField(item)) == Some(item)
  {
    var f := QuoteField(item);
    assert f[1..|f| - 1] == Escape(item);
    UnescapeEscape(item);
  }

  /** The lines of the file after the header, one quoted field per history item. */
  function Lines(items: seq<string>): (r: seq<string>)
    ensures |r| == |items|
    ensures forall i | 0 <= i < |r| :: UnquoteField(r[i]) == Some(items[i])
  {
    if items == [] then []
    else
      QuoteFieldRoundTrip(items[0]);
      [QuoteField(items[0])] + Lines(items[1..])
  }

  /** `lines.join("\n")`. */
  function Join(lines: seq<string>): string
  {
    if lines == [] then []
    else if |lines| == 1 then lines[0]
    else lines[0] + "\n" + Join(lines[1..])
  }

  /**
   * The file's text, or `None` for an empty history, where the source only
   * shows an alert and downloads nothing.
   */
  function CsvContent(items: seq<string>): (content: Option<string>)
    ensures content.None? <==> items == []
  {
    if items == [] then None
    else Some(Header + "\n" + Join(Lines(items)))
  }
}
