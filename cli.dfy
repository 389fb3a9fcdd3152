/**
 * The script's top level: reading `sys.argv`, choosing between the usage
 * message, listing the server's layers and streaming one layer, and the exit
 * status each path ends with.
 */
module Cli {
  import opened Wrappers
  import opened Ogr
  import opened FeatureLoop
  import opened GeoJsonEmit
  import LoopProperties

  /** The command line after parsing: WFS URL, layer name, and the optional third argument. */
  datatype Config = Config(url: string, layerName: string, filter: Option<string>)

  /**
   * The `try` block that reads `sys.argv`: the URL and the layer name are
   * required (an `IndexError` otherwise), the filter is the third argument when
   * there is one, and further arguments are ignored. `argv[0]` is the script.
   */
  function ParseArgs(argv: seq<string>): Option<Config>
  {
    if |argv| < 3 then None
    else Some(Config(argv[1], argv[2], if |argv| >= 4 then Some(argv[3]) else None))
  }

  /** The command line that states `cfg` and nothing more, for script name `prog`. */
  function CommandLine(prog: string, cfg: Config): (argv: seq<string>)
    ensures 3 <= |argv| <= 4
  {
    [prog, cfg.url, cfg.layerName] + (if cfg.filter.Some? then [cfg.filter.value] else [])
  }

  /** Parsing gives back every configuration from its own command line. */
  lemma ParseCommandLine(prog: string, cfg: Config)
    ensures ParseArgs(CommandLine(prog, cfg)) == Some(cfg)
  {
  }

  /**
   * The usage message is printed exactly when the URL or the layer name is
   * missing; otherwise the configuration is read off the first arguments and
   * the rest of the command line is ignored.
   */
  lemma ParseArgsCases(argv: seq<string>)
    ensures ParseArgs(argv).None? <==> |argv| < 3
    ensures ParseArgs(argv).Some? ==>
      var cfg := ParseArgs(argv).value;
      CommandLine(argv[0], cfg) == argv[..if |argv| < 4 then |argv| else 4]
  {
    if |argv| >= 3 {
      var cfg := ParseArgs(argv).value;
      var n := if |argv| < 4 then |argv| else 4;
      assert CommandLine(argv[0], cfg)[0] == argv[0];
      assert |CommandLine(argv[0], cfg)| == n;
    }
  }

  /** `if server_attribute_filter:` — an empty string counts as no filter. */
  function ServerFilter(cfg: Config): Option<string>
  {
    if cfg.filter.Some? && cfg.filter.value != "" then cfg.filter else None
  }

  /**
   * What `get_features` does to the layer before the loop: set the attribute
   * filter, and ask the server for the feature count only when there is none.
   */
  datatype Setup = Setup(attributeFilter: Option<string>, asksFeatureCount: bool)

  function LayerSetup(cfg: Config): (s: Setup)
    ensures s.asksFeatureCount <==> s.attributeFilter.None?
    ensures s.attributeFilter == ServerFilter(cfg)
  {
    var f := ServerFilter(cfg);
    Setup(f, f.None?)
  }

  /** Which way the script goes. */
  datatype Mode =
    | Usage                               // too few arguments
    | CannotOpen(url: string)             // the datasource assertion fails
    | ListLayers(url: string)             // empty layer name: list the layers and exit
    | Stream(cfg: Config, setup: Setup)   // set up the layer, run `print_features_geojson`

  /** The mode for a command line, given whether the WFS datasource opens. */
  function SelectMode(argv: seq<string>, opens: bool): Mode
  {
    match ParseArgs(argv)
    case None => Usage
    case Some(cfg) =>
      if !opens then CannotOpen(cfg.url)
      else if cfg.layerName == "" then ListLayers(cfg.url)
      else Stream(cfg, LayerSetup(cfg))
  }

  /** Listing is chosen exactly for an empty layer name on a datasource that opens; streaming for a non-empty one. */
  lemma SelectModeCases(argv: seq<string>, opens: bool)
    ensures SelectMode(argv, opens) == Usage <==> |argv| < 3
    ensures SelectMode(argv, opens).CannotOpen? <==> |argv| >= 3 && !opens
    ensures SelectMode(argv, opens).ListLayers? <==> |argv| >= 3 && opens && argv[2] == ""
    ensures SelectMode(argv, opens).Stream? <==> |argv| >= 3 && opens && argv[2] != ""
    ensures SelectMode(argv, opens).Stream? ==> Some(SelectMode(argv, opens).cfg) == ParseArgs(argv)
  {
  }

  /**
   * The layer gets a non-empty third argument as its attribute filter and then
   * is not asked for its feature count; with no third argument, or an empty
   * one, it is left unfiltered and the count is asked for.
   */
  lemma FilterFromArgv(argv: seq<string>, opens: bool)
    requires SelectMode(argv, opens).Stream?
    ensures SelectMode(argv, opens).setup ==
      if |argv| >= 4 && argv[3] != "" then Setup(Some(argv[3]), false) else Setup(None, true)
  {
  }

  /** How the process ends: with a status, or not yet (the loop is still fetching). */
  datatype Exit = Exited(status: nat) | Pending

  /**
   * The exit status: 1 for the usage message, for the failed assertion on the
   * datasource and for an exception escaping the loop; 0 after listing and
   * after the loop's `break`, since the generator then simply returns.
   */
  function ExitOf(mode: Mode, stop: Stop): Exit
  {
    match mode
    case Usage => Exited(1)
    case CannotOpen(_) => Exited(1)
    case ListLayers(_) => Exited(0)
    case Stream(_, _) =>
      match stop
      case Running => Pending
      case GaveUp => Exited(0)
      case EndOfData => Exited(0)
      case ReadFault => Exited(1)
  }

  /** The whole script over a cursor: the mode, the lines streamed, and how it ends. */
  datatype ScriptResult = ScriptResult(mode: Mode, out: seq<Output>, exit: Exit)

  /** What the script writes and how it ends, for a command line, a datasource and a cursor. */
  function ScriptOutcome(argv: seq<string>, opens: bool, cursor: seq<Outcome>): (r: ScriptResult)
    ensures r.mode == SelectMode(argv, opens)
  {
    var mode := SelectMode(argv, opens);
    if mode.Stream? then
      var t := Scan(INIT, cursor);
      RunYieldsConform(INIT, cursor, |cursor|);
      ScriptResult(mode, Expand(t.events), ExitOf(mode, t.stop))
    else ScriptResult(mode, [], ExitOf(mode, Running))
  }

  /** The top level of the script, top to bottom. */
  method Script(argv: seq<string>, opens: bool, cursor: seq<Outcome>) returns (r: ScriptResult)
    ensures r == ScriptOutcome(argv, opens, cursor)
  {
    var cfg := ParseArgs(argv);
    if cfg.None? {
      return ScriptResult(Usage, [], Exited(1));
    }
    if !opens {
      return ScriptResult(CannotOpen(cfg.value.url), [], Exited(1));
    }
    if cfg.value.layerName == "" {
      return ScriptResult(ListLayers(cfg.value.url), [], Exited(0));
    }
    var mode := Stream(cfg.value, LayerSetup(cfg.value));
    var out, t := PrintFeaturesGeojson(cursor);
    r := ScriptResult(mode, out, ExitOf(mode, t.stop));
  }

  /**
   * The paths that do not stream write no feature and no loop line: the usage
   * message and the failed assertion end with status 1, listing the layers
   * with status 0.
   */
  lemma ScriptExit(argv: seq<string>, opens: bool, cursor: seq<Outcome>)
    ensures |argv| < 3 ==> ScriptOutcome(argv, opens, cursor) == ScriptResult(Usage, [], Exited(1))
    ensures |argv| >= 3 && !opens ==>
      ScriptOutcome(argv, opens, cursor) == ScriptResult(CannotOpen(argv[1]), [], Exited(1))
    ensures |argv| >= 3 && opens && argv[2] == "" ==>
      ScriptOutcome(argv, opens, cursor) == ScriptResult(ListLayers(argv[1]), [], Exited(0))
  {
  }

  /**
   * Streaming ends with status 0 after the loop gives up and with status 1 when
   * reading a feature's attributes raises; it never ends for lack of data.
   */
  lemma StreamExit(argv: seq<string>, opens: bool, cursor: seq<Outcome>)
    requires SelectMode(argv, opens).Stream?
    ensures var r := ScriptOutcome(argv, opens, cursor); var t := Scan(INIT, cursor);
      (r.exit == Exited(0) <==> t.stop == GaveUp)
      && (r.exit == Exited(1) <==> t.stop == ReadFault)
      && (r.exit == Pending <==> t.stop == Running)
  {
    LoopProperties.NeverEndOfData(INIT, cursor, |cursor|);
  }
}
