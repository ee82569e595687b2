/**
 * `tunnels.json` and `imageLink.json` and the commands and timers that read
 * and write them.
 */
module TunnelCommands {
  import opened Wrappers
  import opened JsValues
  import Strings
  import Tunnels

  const StatusTitle: string := "Tunnel Supplies Status"
  const StatusColor: nat := 0x8c2b2b
  /** The image of the periodic post; the view command takes its image from `imageLink.json`. */
  const PostImage: string := "https://i.postimg.cc/mrNZS6ZL/Tunnel-Numbers.png"

  datatype Field = Field(name: string, value: string)

  datatype StatusEmbed = StatusEmbed(title: string, color: nat, image: string, fields: seq<Field>)

  datatype ViewReply = FileMissing | NoData | Status(embed: StatusEmbed)

  datatype AmountOutcome = UnknownTunnel | InvalidRate | AmountSet(amount: Value)

  /**
   * The tunnel table. `order` is the key order of the parsed object, which
   * for these names is insertion order; a missing file reads as `{}`.
   */
  class TunnelFile {
    var present: bool
    var rows: map<string, Tunnels.Tunnel>
    var order: seq<string>

    ghost predicate Valid()
      reads this
    {
      && Strings.NoDuplicates(order)
      && (forall name :: name in rows <==> name in order)
      && (!present ==> rows == map[])
    }

    /** The file before any command has created it. */
    constructor ()
      ensures !present && rows == map[] && order == []
      ensures Valid()
    {
      present, rows, order := false, map[], [];
    }

    /** `addTunnel`: refuse an existing name; otherwise insert it with amount "0" and write the file. */
    method Add(name: string, hourRate: string) returns (added: bool)
      requires Valid()
      modifies this
      ensures Valid()
      ensures added <==> name !in old(rows)
      ensures added ==> present && rows == old(rows)[name := Tunnels.NewTunnel(hourRate)] && order == old(order) + [name]
      ensures !added ==> present == old(present) && rows == old(rows) && order == old(order)
    {
      if name in rows {
        return false;
      }
      Strings.AppendFreshKeepsNoDuplicates(order, name);
      rows := rows[name := Tunnels.NewTunnel(hourRate)];
      order := order + [name];
      present := true;
      added := true;
    }

    /** `editTunnel`: refuse an unknown name; otherwise replace only its rate. */
    method Edit(name: string, newHourRate: string) returns (edited: bool)
      requires Valid()
      modifies this
      ensures Valid()
      ensures edited <==> name in old(rows)
      ensures edited ==> rows == old(rows)[name := old(rows)[name].(hourRate := Str(newHourRate))]
      ensures !edited ==> rows == old(rows)
      ensures present == old(present) && order == old(order)
    {
      if name !in rows {
        return false;
      }
      rows := rows[name := rows[name].(hourRate := Str(newHourRate))];
      edited := true;
    }

    /**
     * `updateMsupps`: refuse an unknown name and a rate that is falsy or not
     * positive; otherwise store `parseInt(input, 10)` as the amount.
     */
    method SetAmount(name: string, input: string) returns (r: AmountOutcome)
      requires Valid()
      modifies this
      ensures Valid()
      ensures name !in old(rows) ==> r == UnknownTunnel
      ensures name in old(rows) && Tunnels.RateUnusable(old(rows)[name].hourRate) ==> r == InvalidRate
      ensures name in old(rows) && !Tunnels.RateUnusable(old(rows)[name].hourRate) ==>
        r == AmountSet(Tunnels.AmountValue(input))
      ensures r.AmountSet? ==> rows == old(rows)[name := old(rows)[name].(currentAmount := r.amount)]
      ensures !r.AmountSet? ==> rows == old(rows)
      ensures present == old(present) && order == old(order)
    {
      if name !in rows {
        return UnknownTunnel;
      }
      if Tunnels.RateUnusable(rows[name].hourRate) {
        return InvalidRate;
      }
      var amount := Tunnels.AmountValue(input);
      rows := rows[name := rows[name].(currentAmount := amount)];
      r := AmountSet(amount);
    }

    /** `clearTunnel`: the file is written as `{}`. */
    method Clear()
      requires Valid()
      modifies this
      ensures Valid()
      ensures present && rows == map[] && order == []
    {
      present, rows, order := true, map[], [];
    }

    /**
     * `updateTunnelsData`: nothing without a file; otherwise every row has
     * one hour of consumption applied and the file is written back.
     */
    method HourlyUpdate()
      requires Valid()
      modifies this
      ensures Valid()
      ensures present == old(present) && order == old(order)
      ensures rows == Depleted(old(rows))
    {
      if !present {
        return;
      }
      var i := 0;
      ghost var before := rows;
      while i < |order|
        invariant 0 <= i <= |order|
        invariant present == old(present) && order == old(order)
        invariant rows.Keys == before.Keys
        invariant forall name :: name in rows ==>
          rows[name] == if name in order[..i] then Tunnels.Deplete(before[name]) else before[name]
        invariant Valid()
      {
        var name := order[i];
        assert order[..i + 1] == order[..i] + [name];
        rows := rows[name := Tunnels.Deplete(rows[name])];
        i := i + 1;
      }
      assert order[..i] == order;
    }

    /** `true` when start-up runs the hourly updater: the file reads and has at least one key. */
    predicate StartsUpdater()
      reads this
    {
      present && |rows| > 0
    }

    /**
     * The loop that adds one field per tunnel, in key order, each named by
     * its tunnel; `depletes` stands for the depletion timestamp.
     */
    method StatusFields(depletes: Tunnels.Tunnel -> string) returns (fields: seq<Field>)
      requires Valid()
      ensures |fields| == |order|
      ensures forall i :: 0 <= i < |order| ==>
        fields[i] == Field(order[i], Tunnels.StatusText(rows[order[i]], depletes(rows[order[i]])))
    {
      fields := [];
      var i := 0;
      while i < |order|
        invariant 0 <= i <= |order|
        invariant |fields| == i
        invariant forall j :: 0 <= j < i ==>
          fields[j] == Field(order[j], Tunnels.StatusText(rows[order[j]], depletes(rows[order[j]])))
      {
        var t := rows[order[i]];
        fields := fields + [Field(order[i], Tunnels.StatusText(t, depletes(t)))];
        i := i + 1;
      }
    }

    /** `postTunnelsEmbed`: nothing without a file or with an empty table; otherwise the status embed. */
    method PeriodicPost(depletes: Tunnels.Tunnel -> string) returns (post: Option<StatusEmbed>)
      requires Valid()
      ensures !present || rows == map[] ==> post == None
      ensures present && rows != map[] ==>
        && post.Some?
        && post.value.title == StatusTitle && post.value.image == PostImage
        && |post.value.fields| == |order|
        && (forall i :: 0 <= i < |order| ==> post.value.fields[i].name == order[i])
        && (forall i :: 0 <= i < |order| ==>
              post.value.fields[i].value == Tunnels.StatusText(rows[order[i]], depletes(rows[order[i]])))
        && (forall i :: 0 <= i < |order| && Tunnels.OutOfSupply(rows[order[i]]) ==>
              post.value.fields[i].value == Tunnels.OutOfSupplyText)
        && (forall i :: 0 <= i < |order| && !Tunnels.OutOfSupply(rows[order[i]]) ==>
              Strings.StartsWith(post.value.fields[i].value,
                Tunnels.ShownAmount(rows[order[i]]) + Tunnels.ShownRate(rows[order[i]])))
    {
      if !present || rows == map[] {
        return None;
      }
      var fields := StatusFields(depletes);
      post := Some(StatusEmbed(StatusTitle, StatusColor, PostImage, fields));
    }

    /** `msuppView`: the missing-file and empty-table replies, otherwise the status embed with the configured image. */
    method View(imageLink: string, depletes: Tunnels.Tunnel -> string) returns (reply: ViewReply)
      requires Valid()
      ensures !present ==> reply == FileMissing
      ensures present && rows == map[] ==> reply == NoData
      ensures present && rows != map[] ==>
        && reply.Status?
        && reply.embed.title == StatusTitle && reply.embed.image == imageLink
        && |reply.embed.fields| == |order|
        && (forall i :: 0 <= i < |order| ==> reply.embed.fields[i].name == order[i])
        && (forall i :: 0 <= i < |order| ==>
              reply.embed.fields[i].value == Tunnels.StatusText(rows[order[i]], depletes(rows[order[i]])))
        && (forall i :: 0 <= i < |order| && Tunnels.OutOfSupply(rows[order[i]]) ==>
              reply.embed.fields[i].value == Tunnels.OutOfSupplyText)
        && (forall i :: 0 <= i < |order| && !Tunnels.OutOfSupply(rows[order[i]]) ==>
              Strings.StartsWith(reply.embed.fields[i].value,
                Tunnels.ShownAmount(rows[order[i]]) + Tunnels.ShownRate(rows[order[i]])))
    {
      if !present {
        return FileMissing;
      }
      if rows == map[] {
        return NoData;
      }
      var fields := StatusFields(depletes);
      reply := Status(StatusEmbed(StatusTitle, StatusColor, imageLink, fields));
    }
  }

  /** The table after one hour: every row depleted, no key added or removed. */
  function Depleted(rows: map<string, Tunnels.Tunnel>): (r: map<string, Tunnels.Tunnel>)
    ensures r.Keys == rows.Keys
  {
    map name | name in rows :: Tunnels.Deplete(rows[name])
  }

  /**
   * The hourly update keeps every rate, leaves rows with unusable data as
   * they are and leaves no usable row with a negative amount.
   */
  lemma DepletedTable(rows: map<string, Tunnels.Tunnel>, name: string)
    requires name in rows
    ensures Depleted(rows)[name].hourRate == rows[name].hourRate
    ensures Tunnels.ParseField(rows[name].hourRate).None? || Tunnels.ParseField(rows[name].currentAmount).None? ==>
      Depleted(rows)[name] == rows[name]
    ensures Tunnels.ParseField(rows[name].hourRate).Some? && Tunnels.ParseField(rows[name].currentAmount).Some? ==>
      Depleted(rows)[name].currentAmount.Num? && Depleted(rows)[name].currentAmount.n >= 0
  {
    Tunnels.DepleteRule(rows[name]);
  }

  /** The configuration object of `imageLink.json`. */
  class ImageConfig {
    var present: bool
    var entries: map<string, Value>

    constructor (present: bool, entries: map<string, Value>)
      ensures this.present == present && this.entries == entries
    {
      this.present, this.entries := present, entries;
    }

    /** `msuppEditImage`: refuse a missing file; otherwise set `imageLink` and keep every other key. */
    method SetImageLink(link: string) returns (updated: bool)
      modifies this
      ensures updated == old(present) && present == old(present)
      ensures updated ==> entries == WithImageLink(old(entries), link)
      ensures !updated ==> entries == old(entries)
    {
      if !present {
        return false;
      }
      entries := WithImageLink(entries, link);
      updated := true;
    }
  }

  function WithImageLink(entries: map<string, Value>, link: string): (r: map<string, Value>)
    ensures "imageLink" in r && r["imageLink"] == Str(link)
    ensures forall key :: key in entries && key != "imageLink" ==> key in r && r[key] == entries[key]
    ensures r.Keys == entries.Keys + {"imageLink"}
  {
    entries["imageLink" := Str(link)]
  }

  /** Setting the same link twice is the same as setting it once. */
  lemma SetImageLinkIdempotent(entries: map<string, Value>, link: string)
    ensures WithImageLink(WithImageLink(entries, link), link) == WithImageLink(entries, link)
  {
  }

  /** After the table is cleared no status is posted, start-up runs no updater, and clearing again changes nothing. */
  method ClearSilencesUpdates(file: TunnelFile, depletes: Tunnels.Tunnel -> string)
    returns (post: Option<StatusEmbed>, starts: bool)
    requires file.Valid()
    modifies file
    ensures post == None && !starts
    ensures file.present && file.rows == map[] && file.order == []
  {
    file.Clear();
    post := file.PeriodicPost(depletes);
    starts := file.StartsUpdater();
    file.Clear();
  }

  /**
   * Viewing and posting change nothing (neither may modify the table), and
   * whenever the view shows the status, the periodic post shows the same
   * fields, and the other way round.
   */
  method ViewMatchesPost(file: TunnelFile, imageLink: string, depletes: Tunnels.Tunnel -> string)
    returns (reply: ViewReply, post: Option<StatusEmbed>)
    requires file.Valid()
    ensures reply.Status? <==> post.Some?
    ensures reply.Status? ==> reply.embed.fields == post.value.fields && reply.embed.image == imageLink
  {
    reply := file.View(imageLink, depletes);
    post := file.PeriodicPost(depletes);
    if reply.Status? {
      assert forall i :: 0 <= i < |reply.embed.fields| ==> reply.embed.fields[i] == post.value.fields[i];
    }
  }
}
