/**
  The command-line front end: the parsed options, the rule that JSON wins over
  CSV, the choice of writer, loading a domain list from file content, and the
  decisions of the entry point (which checks run first, which path resolves,
  when the process exits with status 1).

  Flag parsing, file access and process exit are not performed here: the
  outcome of creating the output file and of reading the list file are inputs.
 */
module Cli {
  import opened Answers
  import Lines
  import Resolver
  import Output

  /** The command-line options. */
  datatype Config = Config(
    target: string,
    listFile: string,
    jsonOutput: bool,
    csvOutput: bool,
    threads: int,
    outputFile: string,
    silent: bool,
    filterCNAME: bool)

  /** When both JSON and CSV are asked for, CSV is switched off; nothing else changes. */
  function NormalizeFormats(c: Config): (n: Config)
    ensures !(n.jsonOutput && n.csvOutput)
    ensures n.jsonOutput == c.jsonOutput
    ensures n.csvOutput <==> c.csvOutput && !c.jsonOutput
    ensures n.(csvOutput := c.csvOutput) == c
  {
    if c.jsonOutput && c.csvOutput then c.(csvOutput := false) else c
  }

  /** The writer: JSON if asked for, else CSV if asked for, else the text table. */
  function WriterFor(c: Config): (f: Output.Format)
    ensures f == Output.Json <==> c.jsonOutput
    ensures f == Output.Csv <==> !c.jsonOutput && c.csvOutput
    ensures f == Output.Text <==> !c.jsonOutput && !c.csvOutput
  {
    if c.jsonOutput then Output.Json
    else if c.csvOutput then Output.Csv
    else Output.Text
  }

  /**
    Dropping CSV when JSON is also asked for does not change the writer, and
    normalising twice is normalising once.
   */
  lemma NormalizeKeepsWriter(c: Config)
    ensures WriterFor(NormalizeFormats(c)) == WriterFor(c)
    ensures NormalizeFormats(NormalizeFormats(c)) == NormalizeFormats(c)
  {
  }

  /** A usable entry of a domain list: non-empty, free of blanks and of line breaks. */
  predicate IsDomainEntry(d: string)
  {
    d != [] && Lines.Clean(d) && Lines.Newline !in d
  }

  /** The cleaned pieces that are not empty, in order, duplicates kept. */
  function KeepDomains(pieces: seq<string>): (ds: seq<string>)
    ensures |ds| <= |pieces|
    ensures forall i :: 0 <= i < |ds| ==> ds[i] != [] && Lines.Clean(ds[i])
  {
    if pieces == [] then []
    else
      var d := Lines.CleanLine(pieces[0]);
      (if d == [] then [] else [d]) + KeepDomains(pieces[1..])
  }

  /** Keeping works piecewise: the kept entries of a list are in the list's order. */
  lemma {:induction false} KeepDomainsAppend(a: seq<string>, b: seq<string>)
    ensures KeepDomains(a + b) == KeepDomains(a) + KeepDomains(b)
    decreases |a|
  {
    if a == [] {
      assert a + b == b;
    } else {
      assert (a + b)[0] == a[0];
      assert (a + b)[1..] == a[1..] + b;
      KeepDomainsAppend(a[1..], b);
    }
  }

  /** An entry is kept exactly when it is the non-empty cleaning of some piece. */
  lemma {:induction false} KeepDomainsMembers(pieces: seq<string>, d: string)
    ensures d in KeepDomains(pieces)
            <==> d != [] && exists i :: 0 <= i < |pieces| && Lines.CleanLine(pieces[i]) == d
    decreases |pieces|
  {
    if pieces != [] {
      KeepDomainsMembers(pieces[1..], d);
      if exists i :: 0 <= i < |pieces| && Lines.CleanLine(pieces[i]) == d {
        var i :| 0 <= i < |pieces| && Lines.CleanLine(pieces[i]) == d;
        if i > 0 {
          assert pieces[1..][i - 1] == pieces[i];
        }
      }
      if exists i :: 0 <= i < |pieces[1..]| && Lines.CleanLine(pieces[1..][i]) == d {
        var i :| 0 <= i < |pieces[1..]| && Lines.CleanLine(pieces[1..][i]) == d;
        assert pieces[i + 1] == pieces[1..][i];
      }
    }
  }

  /** The domains read from the content of a list file. */
  function LoadDomains(content: string): seq<string>
  {
    KeepDomains(Lines.SplitLines(content))
  }

  /**
    Every loaded entry is usable, there are no more entries than lines, and
    every non-empty cleaned line is loaded.
   */
  lemma LoadDomainsEntries(content: string)
    ensures forall i :: 0 <= i < |LoadDomains(content)| ==> IsDomainEntry(LoadDomains(content)[i])
    ensures |LoadDomains(content)| <= |Lines.SplitLines(content)|
    ensures forall d :: (d in LoadDomains(content)
            <==> d != [] && exists i :: 0 <= i < |Lines.SplitLines(content)| && Lines.CleanLine(Lines.SplitLines(content)[i]) == d)
  {
    var pieces := Lines.SplitLines(content);
    var ds := LoadDomains(content);
    Lines.SplitLinesNoNewline(content);
    forall d
      ensures d in ds <==> d != [] && exists i :: 0 <= i < |pieces| && Lines.CleanLine(pieces[i]) == d
    {
      KeepDomainsMembers(pieces, d);
    }
    forall k | 0 <= k < |ds| ensures IsDomainEntry(ds[k]) {
      KeepDomainsMembers(pieces, ds[k]);
      var i :| 0 <= i < |pieces| && Lines.CleanLine(pieces[i]) == ds[k];
      Lines.CleanLineNoNew(pieces[i], Lines.Newline);
    }
  }

  /** What the entry point goes on to do. */
  datatype Action =
    | Exit(code: int)
    | ResolveTarget(format: Output.Format, resolver: Resolver.Resolver, domain: string)
    | ResolveList(format: Output.Format, resolver: Resolver.Resolver, domains: seq<string>)

  /**
    The entry point's decisions, in its order: a missing target and list is a
    usage error; the output file is created before anything is resolved; a
    target is resolved on its own and the list is never read; otherwise the
    list file is read and its domains resolved. `outputCreated` and `listRead`
    are the outcomes of creating the output file and reading the list file.
   */
  function Plan(c: Config, outputCreated: bool, listRead: Answer<string>): (a: Action)
    ensures a.Exit? ==> a.code == 1
    ensures a.Exit? <==> || (c.target == [] && c.listFile == [])
                         || (c.outputFile != [] && !outputCreated)
                         || (c.target == [] && listRead.Err?)
    ensures a.ResolveTarget? <==> c.target != [] && (c.outputFile == [] || outputCreated)
    ensures a.ResolveTarget? ==> a.domain == c.target
    ensures a.ResolveList? ==> c.target == [] && listRead.Ok? && a.domains == LoadDomains(listRead.value)
    ensures !a.Exit? ==> a.format == WriterFor(NormalizeFormats(c))
    ensures !a.Exit? ==> a.resolver == Resolver.Resolver(c.threads, c.filterCNAME)
  {
    if c.target == [] && c.listFile == [] then Exit(1)
    else
      var n := NormalizeFormats(c);
      var resolver := Resolver.Resolver(n.threads, n.filterCNAME);
      var format := WriterFor(n);
      if n.outputFile != [] && !outputCreated then Exit(1)
      else if n.target != [] then ResolveTarget(format, resolver, n.target)
      else match listRead
        case Err(_) => Exit(1)
        case Ok(content) => ResolveList(format, resolver, LoadDomains(content))
  }

  /** With a target, the list file and whatever reading it would give play no part. */
  lemma TargetIgnoresList(c: Config, outputCreated: bool, listRead: Answer<string>, otherList: string, otherRead: Answer<string>)
    requires c.target != []
    ensures Plan(c, outputCreated, listRead) == Plan(c.(listFile := otherList), outputCreated, otherRead)
  {
  }

  /**
    The records written for a single target: exactly one, for that target. The
    CNAME filter does not remove it: with the filter on and an alias present it
    is written as a failure carrying the filter's message.
   */
  function TargetResults(resolver: Resolver.Resolver, domain: string, obs: Resolver.Observation): (results: seq<Resolver.Result>)
    ensures |results| == 1 && results[0].domain == domain
    ensures results[0].timestamp == obs.timestamp
    ensures results[0].hasCNAME == Resolver.HasCNAME(domain, obs.cname)
    ensures !Resolver.Filtered(resolver.filterCNAME, domain, obs.cname) && obs.addresses.Err?
            ==> results[0].error == obs.addresses.message && results[0].ip == ""
    ensures !Resolver.Filtered(resolver.filterCNAME, domain, obs.cname) && obs.addresses.Ok?
            && |obs.addresses.value| == 1
            ==> results[0].error == "" && results[0].ip == Resolver.AddressText(obs.addresses.value[0])
    ensures !Resolver.Filtered(resolver.filterCNAME, domain, obs.cname) && obs.addresses.Ok?
            && |obs.addresses.value| != 1
            ==> results[0].error == Resolver.AmbiguousError(domain) && results[0].ip == ""
    ensures Resolver.Filtered(resolver.filterCNAME, domain, obs.cname)
            ==> results[0].error == Resolver.CNAMEFilteredError(domain, obs.cname.value) && results[0].ip == ""
  {
    [Resolver.ResolveSingle(resolver.filterCNAME, domain, obs)]
  }

  /**
    Unless the filter rejects it, a target gives the same record as a list
    holding only that domain.
   */
  lemma TargetAgreesWithBatch(resolver: Resolver.Resolver, domain: string, obs: Resolver.Observation)
    requires !Resolver.Filtered(resolver.filterCNAME, domain, obs.cname)
    ensures TargetResults(resolver, domain, obs) == Resolver.ResolveMultiple(resolver, [domain], [obs], [0])
  {
    assert multiset([0 as nat]) == multiset(Resolver.Range(1)) by {
      assert Resolver.Range(1) == [0];
    }
  }

  /**
    A filtered target still shows up in the text table, as a failed row, while
    the same domain in a list is dropped from the batch.
   */
  lemma FilteredTargetIsShown(domain: string, obs: Resolver.Observation)
    requires Resolver.Filtered(true, domain, obs.cname)
    ensures var results := TargetResults(Resolver.Resolver(1, true), domain, obs);
            Output.TextLines(results)[2]
            == Output.RenderRow(Output.MaxDomainLen(results), Output.TextRow(domain, Output.NoAddress, Output.Yes, Output.Failed))
    ensures Resolver.ResolveMultiple(Resolver.Resolver(1, true), [domain], [obs], [0]) == []
  {
    var results := TargetResults(Resolver.Resolver(1, true), domain, obs);
    assert results[0].error != "" by {
      assert |Resolver.CNAMEFilteredError(domain, obs.cname.value)| > 0;
    }
    assert multiset([0 as nat]) == multiset(Resolver.Range(1)) by {
      assert Resolver.Range(1) == [0];
    }
  }
}
