/**
 The diagnostic trace formatter (utils/px_dbg.c). Every entry point pushes
 characters one by one into an output sink; here the sink is "append to a
 sequence", so each entry point becomes the sequence of characters it emits.

 All formatted output goes through one static scratch buffer of
 PX_DBG_CFG_BUF_SIZE characters: vsnprintf renders into it, the last slot is
 forced to NUL, and the buffer is then emitted up to its first NUL. This holds
 for the caller's message, for the "name line : " part of the log prefix and
 for every "%02hX " of a data trace.
 */
module Dbg {
  import opened Types
  import opened DbgText

  /** PX_DBG_CFG_BUF_SIZE: the scratch buffer size; a C array has a slot. */
  type BufSize = n: nat | 1 <= n witness 1

  /** Severity of a log line. */
  datatype Level = Err | Warn | Info

  /** Build-time configuration: scratch-buffer size and, when the
      PX_DBG_CFG_TIMESTAMP hook is configured, the text it produces. */
  datatype Config = Config(bufSize: BufSize, timestamp: Option<seq<char>>)

  /* ---- The scratch buffer ---- */

  /** `r` is what streaming `text` through the scratch buffer emits: a NUL-free
      prefix of `text` of at most size-1 characters that stops only at the
      buffer's last usable slot, at the end of `text`, or at a NUL in it. */
  predicate IsBoundedText(size: BufSize, text: seq<char>, r: seq<char>)
  {
    && r <= text
    && |r| <= size - 1
    && NoNul(r)
    && (|r| == size - 1 || r == text || text[|r|] == NUL)
  }

  /** The text that streaming `text` through the scratch buffer emits. */
  function Bounded(size: BufSize, text: seq<char>): (r: seq<char>)
    ensures IsBoundedText(size, text, r)
  {
    UntilNul(text[..Min(|text|, size - 1)])
  }

  /** IsBoundedText is a complete specification: exactly one text meets it. */
  lemma BoundedUnique(size: BufSize, text: seq<char>, r: seq<char>)
    requires IsBoundedText(size, text, r)
    ensures r == Bounded(size, text)
  {
    var k := Min(|text|, size - 1);
    assert r <= text[..k];
    UntilNulUnique(text[..k], r);
  }

  /** NUL-free text is cut at the buffer limit and nowhere else. */
  lemma BoundedNoNul(size: BufSize, text: seq<char>)
    requires NoNul(text)
    ensures Bounded(size, text) == text[..Min(|text|, size - 1)]
  {
    BoundedUnique(size, text, text[..Min(|text|, size - 1)]);
  }

  /** Text that fits the buffer and holds no NUL is emitted unchanged. */
  lemma BoundedFits(size: BufSize, text: seq<char>)
    requires NoNul(text) && |text| <= size - 1
    ensures Bounded(size, text) == text
  {
    BoundedUnique(size, text, text);
  }

  /** The scratch buffer after vsnprintf(px_dbg_buf, size, ...): at most
      size-1 characters of the rendered `text`, then a NUL; the slots after it
      keep what the static buffer held before (`prior`). */
  function Vsnprintf(size: BufSize, text: seq<char>, prior: seq<char>): (buf: seq<char>)
    requires |prior| == size
    ensures |buf| == size
    ensures var k := Min(|text|, size - 1); buf[..k] == text[..k] && buf[k] == NUL
  {
    var k := Min(|text|, size - 1);
    text[..k] + [NUL] + prior[k + 1..]
  }

  /** px_dbg_trace_vargs: render into the scratch buffer, force its last slot
      to NUL, emit it up to the first NUL. Whatever the buffer held before,
      the output is the bounded text. */
  function TraceVargs(size: BufSize, text: seq<char>, prior: seq<char>): (r: seq<char>)
    requires |prior| == size
    ensures IsBoundedText(size, text, r)
    ensures r == Bounded(size, text)
  {
    var k := Min(|text|, size - 1);
    var buf := Vsnprintf(size, text, prior)[size - 1 := NUL];
    var p := UntilNul(text[..k]);
    assert buf[..k] == text[..k];
    assert p <= buf;
    assert buf[k] == NUL;
    UntilNulUnique(buf, p);
    UntilNul(buf)
  }

  /** px_dbg_put_str: emit the characters of a C string up to its NUL. */
  method PutStr(out: seq<char>, data: seq<char>) returns (out': seq<char>)
    ensures out' == out + UntilNul(data)
    ensures |out'| <= |out| + |data|
  {
    out' := out;
    var k := 0;
    while k < |data| && data[k] != NUL
      invariant 0 <= k <= |data|
      invariant NoNul(data[..k])
      invariant out' == out + data[..k]
    {
      out' := out' + [data[k]];
      k := k + 1;
    }
    UntilNulUnique(data, data[..k]);
  }

  /* ---- Log prefix ---- */

  /** The severity letter of a log line. */
  function LevelTag(level: Level): char
  {
    match level
    case Err => 'E'
    case Warn => 'W'
    case Info => 'I'
  }

  /** What px_dbg_printf("%s %u : ", name, line) renders before truncation. */
  function NameLineText(name: seq<char>, line: uint16): seq<char>
  {
    UntilNul(name) + " " + Decimal(line) + " : "
  }

  /** The optional timestamp part: the hook's text through the scratch
      buffer, then one space; nothing when no hook is configured. */
  function TimestampText(cfg: Config): (t: seq<char>)
    ensures cfg.timestamp.None? ==> t == []
    ensures cfg.timestamp.Some? ==>
      && |t| >= 1 && t[|t| - 1] == ' '
      && IsBoundedText(cfg.bufSize, cfg.timestamp.value, t[..|t| - 1])
  {
    match cfg.timestamp
    case None => []
    case Some(ts) => Bounded(cfg.bufSize, ts) + " "
  }

  /** px_dbg_report_log_prefix: level letter, space, optional timestamp,
      then "name line : " through the scratch buffer. */
  function LogPrefix(cfg: Config, level: Level, name: seq<char>, line: uint16): (r: seq<char>)
    ensures |r| >= 2 && r[0] == LevelTag(level) && r[1] == ' '
    ensures var t := TimestampText(cfg);
      && |r| >= 2 + |t|
      && r[2..2 + |t|] == t
      && IsBoundedText(cfg.bufSize, NameLineText(name, line), r[2 + |t|..])
    ensures |r| <= 2 + |TimestampText(cfg)| + cfg.bufSize - 1
  {
    [LevelTag(level), ' '] + TimestampText(cfg) + Bounded(cfg.bufSize, NameLineText(name, line))
  }

  /** Without a timestamp hook and with a scratch buffer large enough, the
      prefix is exactly: letter, space, name, space, decimal line, " : ". */
  lemma LogPrefixLayout(cfg: Config, level: Level, name: seq<char>, line: uint16)
    requires cfg.timestamp.None?
    requires |UntilNul(name)| + |Decimal(line)| + 4 <= cfg.bufSize - 1
    ensures LogPrefix(cfg, level, name, line)
         == [LevelTag(level), ' '] + UntilNul(name) + [' '] + Decimal(line) + [' ', ':', ' ']
  {
    var t := NameLineText(name, line);
    forall i | 0 <= i < |t| ensures t[i] != NUL {
      if i < |UntilNul(name)| {
        assert t[i] == UntilNul(name)[i];
      } else if |UntilNul(name)| + 1 <= i < |UntilNul(name)| + 1 + |Decimal(line)| {
        assert t[i] == Decimal(line)[i - |UntilNul(name)| - 1];
      }
    }
    BoundedFits(cfg.bufSize, t);
  }

  /* ---- Log lines and traces ---- */

  /** Shape shared by the three log calls: the prefix, the caller's message
      through the scratch buffer, and one newline. */
  predicate IsLogLine(cfg: Config, level: Level, name: seq<char>, line: uint16,
                      text: seq<char>, r: seq<char>)
  {
    var p := LogPrefix(cfg, level, name, line);
    && |r| > |p|
    && r[..|p|] == p
    && r[|r| - 1] == '\n'
    && IsBoundedText(cfg.bufSize, text, r[|p|..|r| - 1])
  }

  function LogLine(cfg: Config, level: Level, name: seq<char>, line: uint16, text: seq<char>): (r: seq<char>)
    ensures IsLogLine(cfg, level, name, line, text, r)
    ensures |r| >= 3 && r[0] == LevelTag(level) && r[1] == ' '
  {
    var p := LogPrefix(cfg, level, name, line);
    var m := Bounded(cfg.bufSize, text);
    var r := p + m + "\n";
    assert r[|p|..|r| - 1] == m;
    r
  }

  /** _px_dbg_log_info */
  function LogInfo(cfg: Config, name: seq<char>, line: uint16, text: seq<char>): (r: seq<char>)
    ensures |r| >= 3 && r[0] == 'I' && r[1] == ' ' && r[|r| - 1] == '\n'
    ensures IsLogLine(cfg, Info, name, line, text, r)
  {
    LogLine(cfg, Info, name, line, text)
  }

  /** _px_dbg_log_warn */
  function LogWarn(cfg: Config, name: seq<char>, line: uint16, text: seq<char>): (r: seq<char>)
    ensures |r| >= 3 && r[0] == 'W' && r[1] == ' ' && r[|r| - 1] == '\n'
    ensures IsLogLine(cfg, Warn, name, line, text, r)
  {
    LogLine(cfg, Warn, name, line, text)
  }

  /** _px_dbg_log_err */
  function LogErr(cfg: Config, name: seq<char>, line: uint16, text: seq<char>): (r: seq<char>)
    ensures |r| >= 3 && r[0] == 'E' && r[1] == ' ' && r[|r| - 1] == '\n'
    ensures IsLogLine(cfg, Err, name, line, text, r)
  {
    LogLine(cfg, Err, name, line, text)
  }

  /** _px_dbg_trace: the caller's message through the scratch buffer, with
      no prefix and no newline of its own. */
  function Trace(cfg: Config, text: seq<char>): (r: seq<char>)
    ensures IsBoundedText(cfg.bufSize, text, r)
  {
    Bounded(cfg.bufSize, text)
  }

  /** A log line is a trace of the same message with the prefix in front and
      a newline behind it. */
  lemma LogLineIsPrefixedTrace(cfg: Config, level: Level, name: seq<char>, line: uint16, text: seq<char>)
    ensures LogLine(cfg, level, name, line, text)
         == LogPrefix(cfg, level, name, line) + Trace(cfg, text) + "\n"
  {
    var r := LogLine(cfg, level, name, line, text);
    var p := LogPrefix(cfg, level, name, line);
    BoundedUnique(cfg.bufSize, text, r[|p|..|r| - 1]);
    assert r == r[..|p|] + r[|p|..|r| - 1] + [r[|r| - 1]];
  }

  /* ---- Raw data trace ---- */

  /** One "%02hX " field printed through the scratch buffer. */
  function HexField(size: BufSize, b: byte): (r: seq<char>)
    ensures r == (Hex2(b) + " ")[..Min(3, size - 1)]
  {
    var t := Hex2(b) + " ";
    assert NoNul(t) by {
      assert t[0] == Hex2(b)[0] && t[1] == Hex2(b)[1] && t[2] == ' ';
    }
    BoundedNoNul(size, t);
    Bounded(size, t)
  }

  /** A scratch buffer of four slots or more holds a whole hex field. */
  lemma HexFieldFits(size: BufSize, b: byte)
    requires size >= 4
    ensures HexField(size, b) == Hex2(b) + " "
  {
    var t := Hex2(b) + " ";
    assert t[0] == Hex2(b)[0] && t[1] == Hex2(b)[1] && t[2] == ' ';
    BoundedFits(size, t);
  }

  /** What _px_dbg_trace_data emits for `data`: one hex field per byte. */
  function TraceDataText(size: BufSize, data: seq<byte>): seq<char>
  {
    if |data| == 0 then []
    else TraceDataText(size, data[..|data| - 1]) + HexField(size, data[|data| - 1])
  }

  /** The data trace as laid out on the wire: three characters per byte, two
      upper-case hex digits and a space, in input order. */
  predicate IsDataLayout(data: seq<byte>, r: seq<char>)
  {
    && |r| == 3 * |data|
    && forall k :: 0 <= k < |data| ==> r[3 * k..3 * k + 3] == Hex2(data[k]) + " "
  }

  lemma {:induction false} TraceDataLayout(size: BufSize, data: seq<byte>)
    requires size >= 4
    ensures IsDataLayout(data, TraceDataText(size, data))
  {
    if |data| > 0 {
      var init := data[..|data| - 1];
      TraceDataLayout(size, init);
      HexFieldFits(size, data[|data| - 1]);
      var r := TraceDataText(size, data);
      var r0 := TraceDataText(size, init);
      assert r == r0 + Hex2(data[|data| - 1]) + " ";
      forall k | 0 <= k < |data| ensures r[3 * k..3 * k + 3] == Hex2(data[k]) + " " {
        if k < |init| {
          assert r[3 * k..3 * k + 3] == r0[3 * k..3 * k + 3];
          assert init[k] == data[k];
        }
      }
    }
  }

  /** _px_dbg_trace_data: loop over the bytes, printing each with "%02hX ". */
  method TraceData(size: BufSize, data: seq<byte>) returns (out: seq<char>)
    ensures out == TraceDataText(size, data)
    ensures size >= 4 ==> IsDataLayout(data, out)
  {
    out := [];
    var i := 0;
    while i < |data|
      invariant 0 <= i <= |data|
      invariant out == TraceDataText(size, data[..i])
    {
      assert data[..i + 1][..i] == data[..i];
      out := out + HexField(size, data[i]);
      i := i + 1;
    }
    assert data[..i] == data;
    if size >= 4 {
      TraceDataLayout(size, data);
    }
  }

  /** Reads a data trace back into bytes: one byte per three characters. */
  function ParseData(s: seq<char>): (r: seq<byte>)
    ensures |r| == |s| / 3
  {
    seq(|s| / 3, k requires 0 <= k < |s| / 3 => HexPairValue(s[3 * k], s[3 * k + 1]))
  }

  /** A data trace loses nothing: reading it back yields the traced bytes. */
  lemma TraceDataRoundTrip(size: BufSize, data: seq<byte>)
    requires size >= 4
    ensures ParseData(TraceDataText(size, data)) == data
  {
    var r := TraceDataText(size, data);
    TraceDataLayout(size, data);
    forall k | 0 <= k < |data| ensures ParseData(r)[k] == data[k] {
      assert r[3 * k..3 * k + 3] == Hex2(data[k]) + " ";
      assert r[3 * k] == Hex2(data[k])[0] && r[3 * k + 1] == Hex2(data[k])[1];
    }
  }
}
