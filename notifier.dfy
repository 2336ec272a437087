/**
 * Posting to Slack (`post_to_slack`, slack_app.py lines 64-83): find the channel id
 * by name in the channel listing, post once to it, and catch every failure.
 */
module Notifier {
  import opened Wrappers

  /** One entry of the channel listing. */
  datatype Channel = Channel(name: string, id: string)

  /** The answer to the channel-list call: the channels, or the exception it raised. */
  datatype Listing = Listed(channels: seq<Channel>) | ListApiError(code: string) | ListFailed(reason: string)

  /** The answer to the post call: acknowledged, or the exception it raised. */
  datatype Delivery = Delivered | DeliveryApiError(code: string) | DeliveryFailed(reason: string)

  /** A message posted to a channel: the recorded output event. */
  datatype Post = Post(channelId: string, text: string)

  /** Which way `post_to_slack` ended: posted, or the handler that caught the exception and what it logged. */
  datatype Outcome = Posted | SlackApiErrorLogged(code: string) | UnexpectedErrorLogged(reason: string)

  /** The `ValueError` text when no usable channel id was found: it quotes the channel name. */
  function NotFoundReason(channelName: string): (r: string)
    ensures |r| == |channelName| + 21
    ensures r[9..9 + |channelName|] == channelName
  {
    "Channel '" + channelName + "' not found."
  }

  /** Index of the first channel carrying the name, if any. */
  function FirstMatch(channels: seq<Channel>, channelName: string): (k: Option<nat>)
    ensures k.Some? ==> k.value < |channels| && channels[k.value].name == channelName
    ensures k.Some? ==> forall j :: 0 <= j < k.value ==> channels[j].name != channelName
    ensures k.None? ==> forall j :: 0 <= j < |channels| ==> channels[j].name != channelName
  {
    if channels == [] then None
    else if channels[0].name == channelName then Some(0)
    else match FirstMatch(channels[1..], channelName)
      case None => None
      case Some(k) => Some(k + 1)
  }

  /** The channel id the loop of lines 67-72 leaves behind. */
  function Resolve(channels: seq<Channel>, channelName: string): (r: Option<string>)
    ensures r.None? <==> forall j :: 0 <= j < |channels| ==> channels[j].name != channelName
    ensures r.Some? ==>
              exists k :: 0 <= k < |channels| && channels[k].name == channelName && channels[k].id == r.value
                          && forall j :: 0 <= j < k ==> channels[j].name != channelName
  {
    match FirstMatch(channels, channelName)
    case None => None
    case Some(k) => Some(channels[k].id)
  }

  /** Where the message goes: a listing was obtained, a channel matched, and its id is not empty. */
  function Destination(listing: Listing, channelName: string): (d: Option<string>)
    ensures !listing.Listed? ==> d.None?
    ensures d.Some? ==> d.value != "" && d == Resolve(listing.channels, channelName)
    ensures listing.Listed? && d.None? ==>
              Resolve(listing.channels, channelName).None? || Resolve(listing.channels, channelName).value == ""
  {
    match listing
    case Listed(channels) =>
      (match Resolve(channels, channelName)
       case Some(id) => if id != "" then Some(id) else None
       case None => None)
    case _ => None
  }

  /**
   * Lines 67-72: walk the channels and stop at the first whose name matches.
   * `examined` counts the channels looked at; none after the match is.
   */
  method ResolveChannel(channels: seq<Channel>, channelName: string)
    returns (channelId: Option<string>, examined: nat)
    ensures channelId == Resolve(channels, channelName)
    ensures examined == match FirstMatch(channels, channelName)
                        case Some(k) => k + 1
                        case None => |channels|
  {
    channelId := None;
    examined := 0;
    while examined < |channels|
      invariant examined <= |channels|
      invariant forall j :: 0 <= j < examined ==> channels[j].name != channelName
      invariant channelId == None
    {
      var channel := channels[examined];
      examined := examined + 1;
      if channel.name == channelName {
        channelId := Some(channel.id);
        FirstMatchIs(channels, channelName, examined - 1);
        break;
      }
    }
    if channelId == None {
      FirstMatchNone(channels, channelName);
    }
  }

  lemma FirstMatchIs(channels: seq<Channel>, channelName: string, k: nat)
    requires k < |channels| && channels[k].name == channelName
    requires forall j :: 0 <= j < k ==> channels[j].name != channelName
    ensures FirstMatch(channels, channelName) == Some(k)
  {
    var m := FirstMatch(channels, channelName);
    assert m.Some? by {
      assert !(forall j :: 0 <= j < |channels| ==> channels[j].name != channelName) by {
        assert channels[k].name == channelName;
      }
    }
    assert channels[m.value].name == channelName;
    assert m.value <= k;
    assert k <= m.value;
  }

  lemma FirstMatchNone(channels: seq<Channel>, channelName: string)
    requires forall j :: 0 <= j < |channels| ==> channels[j].name != channelName
    ensures FirstMatch(channels, channelName) == None
  {
  }

  /**
   * `post_to_slack`: at most one post, to the resolved id; every failure is caught,
   * so the call always returns, with the catching handler recorded in the outcome.
   */
  method PostToSlack(channelName: string, message: string, listing: Listing, delivery: Delivery)
    returns (posts: seq<Post>, outcome: Outcome)
    ensures |posts| <= 1
    ensures posts != [] <==> Destination(listing, channelName).Some?
    ensures posts != [] ==> posts[0] == Post(Destination(listing, channelName).value, message)
    ensures listing.ListApiError? ==> outcome == SlackApiErrorLogged(listing.code)
    ensures listing.ListFailed? ==> outcome == UnexpectedErrorLogged(listing.reason)
    ensures listing.Listed? && posts == [] ==> outcome == UnexpectedErrorLogged(NotFoundReason(channelName))
    ensures posts != [] ==> outcome == match delivery
                                       case Delivered => Posted
                                       case DeliveryApiError(code) => SlackApiErrorLogged(code)
                                       case DeliveryFailed(reason) => UnexpectedErrorLogged(reason)
  {
    posts := [];
    match listing {
      case ListApiError(code) =>
        outcome := SlackApiErrorLogged(code);
      case ListFailed(reason) =>
        outcome := UnexpectedErrorLogged(reason);
      case Listed(channels) =>
        var channelId, examined := ResolveChannel(channels, channelName);
        if channelId.None? || channelId.value == "" {
          outcome := UnexpectedErrorLogged(NotFoundReason(channelName));
        } else {
          posts := [Post(channelId.value, message)];
          match delivery {
            case Delivered =>
              outcome := Posted;
            case DeliveryApiError(code) =>
              outcome := SlackApiErrorLogged(code);
            case DeliveryFailed(reason) =>
              outcome := UnexpectedErrorLogged(reason);
          }
        }
    }
  }

  /**
   * The destination is the id of the FIRST channel with the name, provided that id is
   * not empty; with no such channel, or an empty id, nothing is posted.
   */
  lemma DestinationIsFirstMatch(channels: seq<Channel>, channelName: string, id: string)
    ensures Destination(Listed(channels), channelName) == Some(id) <==>
              exists k :: 0 <= k < |channels| && channels[k].name == channelName
                          && (forall j :: 0 <= j < k ==> channels[j].name != channelName)
                          && channels[k].id == id && id != ""
  {
    var m := FirstMatch(channels, channelName);
    if m.Some? {
      forall k | 0 <= k < |channels| && channels[k].name == channelName
                 && (forall j :: 0 <= j < k ==> channels[j].name != channelName)
        ensures k == m.value
      {
        FirstMatchIs(channels, channelName, k);
      }
    }
  }

  /** Channels after the first match play no part in the result. */
  lemma {:induction false} LaterChannelsIrrelevant(channels: seq<Channel>, later: seq<Channel>, channelName: string)
    requires FirstMatch(channels, channelName).Some?
    ensures Resolve(channels + later, channelName) == Resolve(channels, channelName)
  {
    var k := FirstMatch(channels, channelName).value;
    assert forall j :: 0 <= j <= k ==> (channels + later)[j] == channels[j];
    FirstMatchIs(channels + later, channelName, k);
  }
}
