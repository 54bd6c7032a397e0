/** The exporters: one reused buffer each, filled in place and shipped. */
module Exporters {
  import opened Wrappers
  import opened Text
  import opened Lines
  import opened UdsSender

  /** A growable byte vector that counts its reallocations. */
  class VecBuf {
    var data: string
    var capacity: nat
    var grown: nat

    constructor WithCapacity(n: nat)
      ensures data == "" && capacity == n && grown == 0
    {
      data, capacity, grown := "", n, 0;
    }

    method Clear()
      modifies this
      ensures data == "" && capacity == old(capacity) && grown == old(grown)
    {
      data := "";
    }

    method Extend(s: string)
      modifies this
      ensures data == old(data) + s
      ensures |data| <= old(capacity) ==> capacity == old(capacity) && grown == old(grown)
      ensures |data| > old(capacity) ==> capacity >= |data| && grown == old(grown) + 1
    {
      var needed := |data| + |s|;
      if needed > capacity {
        capacity := if 2 * capacity >= needed then 2 * capacity else needed;
        grown := grown + 1;
      }
      data := data + s;
    }

    method Push(c: char)
      modifies this
      ensures data == old(data) + [c]
      ensures |data| <= old(capacity) ==> capacity == old(capacity) && grown == old(grown)
      ensures |data| > old(capacity) ==> capacity >= |data| && grown == old(grown) + 1
    {
      Extend([c]);
    }
  }

  method BuildInfluxPrefix(target: string, az: string) returns (prefix: string)
    ensures prefix == InfluxPrefix(target, az)
  {
    prefix := "tcp_latency,target=";
    prefix := prefix + target;
    prefix := prefix + ",az=";
    prefix := prefix + az;
    prefix := prefix + " ";
  }

  method BuildPutvalPrefix(host: string, target: string, secs: nat) returns (prefix: string)
    ensures prefix == PutvalPrefix(host, target, secs)
  {
    prefix := "PUTVAL ";
    prefix := prefix + host;
    prefix := prefix + "/wire-probe-tcp/latency-";
    prefix := prefix + target;
    prefix := prefix + " interval=";
    prefix := prefix + Dec(secs);
    prefix := prefix + " N:";
  }

  method ExtendFields(v: Option<string>, out: VecBuf)
    modifies out
    ensures out.data == old(out.data) + Fields(v)
    ensures |out.data| <= old(out.capacity) ==> out.capacity == old(out.capacity) && out.grown == old(out.grown)
  {
    if v.Some? {
      out.Extend("rtt_ms=");
      out.Extend(v.value);
      Regroup(old(out.data), "rtt_ms=", v.value);
      out.Extend(",success=1i");
      Regroup(old(out.data), "rtt_ms=" + v.value, ",success=1i");
    } else {
      out.Extend("success=0i");
    }
  }

  /** Renders one Influx line into `out`, whatever it held before. */
  method FormatInflux(prefix: string, v: Option<string>, stamp: nat, out: VecBuf)
    modifies out
    ensures out.data == InfluxLine(prefix, v, stamp)
    ensures |out.data| <= old(out.capacity) ==> out.capacity == old(out.capacity) && out.grown == old(out.grown)
  {
    out.Clear();
    out.Extend(prefix);
    assert out.data == prefix;
    ExtendFields(v, out);
    out.Push(' ');
    out.Extend(Dec(stamp));
    out.Push('\n');
  }

  class TelegrafExporter {
    const prefix: string
    const buf: VecBuf

    ghost predicate Valid()
      reads this, buf
    {
      buf.capacity >= |prefix| + INFLUX_HEADROOM
    }

    constructor (target: string, az: string)
      ensures Valid() && fresh(buf) && prefix == InfluxPrefix(target, az) && buf.grown == 0
    {
      var p := BuildInfluxPrefix(target, az);
      prefix := p;
      buf := new VecBuf.WithCapacity(|p| + INFLUX_HEADROOM);
    }

    /** One datagram per call, without a reallocation, holding this call's arguments alone. */
    method Send(v: Option<string>, stamp: nat) returns (datagram: string)
      requires Valid() && Printable(v) && stamp <= U64_MAX
      modifies buf
      ensures Valid() && buf.grown == old(buf.grown) && buf.capacity == old(buf.capacity)
      ensures datagram == buf.data == InfluxLine(prefix, v, stamp)
    {
      InfluxFits(prefix, v, stamp);
      FormatInflux(prefix, v, stamp, buf);
      datagram := buf.data;
    }
  }

  lemma PrefixIsOneLine(rawHost: string, rawTarget: string, secs: nat)
    ensures '\n' !in PutvalPrefix(Sanitize(rawHost), Sanitize(rawTarget), secs)
  {
    var p := PutvalPrefix(Sanitize(rawHost), Sanitize(rawTarget), secs);
    PutvalIsOneLine(rawHost, rawTarget, secs, None);
    assert (p + "U" + "\n")[..|p| + 1] == p + "U";
    Free('\n', p, "U");
  }

  lemma LineFromPrefix(prefix: string, v: Option<string>)
    requires '\n' !in prefix && Printable(v)
    ensures IsLine(PutvalLine(prefix, v))
  {
  }

  datatype FlushResult = Ok | WriteFailed | ReconnectFailed

  class CollectdExporter {
    const prefix: string
    const buf: VecBuf
    /** What each connection's reader has received; `stream` is the one written to. */
    ghost var conns: seq<string>
    var stream: nat
    ghost var history: seq<Attempt>

    ghost predicate Valid()
      reads this, buf
    {
      && buf.capacity >= |prefix| + PUTVAL_HEADROOM
      && '\n' !in prefix
      && PossibleScript(history)
      && conns == Wire(history)
      && stream == |conns| - 1
    }

    /** The exporter right after its first connect. */
    constructor (rawHost: string, rawTarget: string, secs: nat)
      ensures Valid() && fresh(buf) && history == [] && conns == [""] && buf.grown == 0
      ensures prefix == PutvalPrefix(Sanitize(rawHost), Sanitize(rawTarget), secs)
    {
      var p := BuildPutvalPrefix(Sanitize(rawHost), Sanitize(rawTarget), secs);
      PrefixIsOneLine(rawHost, rawTarget, secs);
      prefix := p;
      buf := new VecBuf.WithCapacity(|p| + PUTVAL_HEADROOM);
      conns, stream, history := [""], 0, [];
    }

    method FormatLine(v: Option<string>)
      requires Valid() && Printable(v)
      modifies buf
      ensures Valid() && buf.data == PutvalLine(prefix, v)
      ensures buf.grown == old(buf.grown) && buf.capacity == old(buf.capacity)
    {
      PutvalFits(prefix, v);
      buf.Clear();
      buf.Extend(prefix);
      if v.Some? {
        buf.Extend(v.value);
      } else {
        buf.Push('U');
      }
      buf.Push('\n');
    }

    /** Writes the buffer to the stream; after any write error the stream is replaced, unless the
        reconnect fails as well. */
    method FlushLine(io: Io) returns (r: FlushResult)
      requires Valid() && Possible(Attempt(buf.data, io))
      modifies this
      ensures Valid() && history == old(history) + [Attempt(buf.data, io)]
      ensures conns == Flush(old(conns), Attempt(buf.data, io))
      ensures r == if io.Whole? then Ok else if io.reconnected then WriteFailed else ReconnectFailed
    {
      ghost var a := Attempt(buf.data, io);
      assert (history + [a])[..|history|] == history;
      history := history + [a];
      match io {
        case Whole =>
          conns := conns[stream := conns[stream] + buf.data];
          r := Ok;
        case Torn(k, reconnected) =>
          conns := conns[stream := conns[stream] + buf.data[..k]];
          if reconnected {
            conns := conns + [""];
            stream := stream + 1;
            r := WriteFailed;
          } else {
            r := ReconnectFailed;
          }
      }
    }

    /** Sends a reading, or `U` for a failed probe. */
    method Send(v: Option<string>, io: Io) returns (r: FlushResult)
      requires Valid() && Printable(v)
      requires io.Torn? ==> io.accepted < |PutvalLine(prefix, v)|
      modifies this, buf
      ensures Valid() && history == old(history) + [Attempt(PutvalLine(prefix, v), io)]
      ensures r.Ok? <==> io.Whole?
      ensures buf.grown == old(buf.grown) && buf.capacity == old(buf.capacity)
    {
      LineFromPrefix(prefix, v);
      FormatLine(v);
      r := FlushLine(io);
    }

    /** After any history, the readers recover exactly the acknowledged lines if and only if no
        line was written whole over a torn frame. */
    lemma ReadersRecover()
      requires Valid()
      ensures Recovered(conns) == Acked(history) <==> !WritesOverTear(history)
    {
      RecoversExactly(history);
    }
  }
}
