/** Events and tags, with the accessors of `model/event.go` and of the go-nostr library. */
module Nostr {
  import opened Strconv

  type Tag = seq<string>

  datatype Event = Event(
    id: string, pubkey: string, kind: int, createdAt: int, tags: seq<Tag>, content: string)

  const KIND_GENERIC_REPOST := 16
  const KIND_ATTESTATION := 10100
  const KIND_ARTICLE := 30023
  const KIND_EDITABLE_TEXT_NOTE := 30175
  const KIND_COMMUNITY_TOKEN_DEFINITION := 31175
  const KIND_COMMUNITY_TOKEN_ACTION := 1175
  const REPOST_OF_ARTICLE := 1630023
  const REPOST_OF_EDITABLE_TEXT_NOTE := 1630175
  const REPOST_OF_TOKEN_DEFINITION := 1631175
  const REPOST_OF_TOKEN_ACTION := 161175

  /** The pseudo-kinds a filter uses for "a generic repost of kind k", with that k. */
  const REPOST_ORIGINALS: map<int, int> := map[
    REPOST_OF_ARTICLE := KIND_ARTICLE,
    REPOST_OF_EDITABLE_TEXT_NOTE := KIND_EDITABLE_TEXT_NOTE,
    REPOST_OF_TOKEN_DEFINITION := KIND_COMMUNITY_TOKEN_DEFINITION,
    REPOST_OF_TOKEN_ACTION := KIND_COMMUNITY_TOKEN_ACTION]

  function Key(tag: Tag): string {
    if |tag| > 0 then tag[0] else ""
  }

  function Value(tag: Tag): string {
    if |tag| > 1 then tag[1] else ""
  }

  /** The first tag with the given key; the empty tag stands for Go's nil. */
  function GetTag(tags: seq<Tag>, name: string): (tag: Tag)
    ensures tag != [] ==> tag in tags && Key(tag) == name
  {
    if tags == [] then [] else if Key(tags[0]) == name then tags[0] else GetTag(tags[1..], name)
  }

  function GetD(tags: seq<Tag>): string {
    if tags == [] then ""
    else if |tags[0]| >= 2 && tags[0][0] == "d" then tags[0][1]
    else GetD(tags[1..])
  }

  function OrElse(s: string, fallback: string): string {
    if s != "" then s else fallback
  }

  /** The key an event is published on behalf of: its `b` tag, else its own key. */
  function MasterKey(e: Event): string {
    OrElse(Value(GetTag(e.tags, "b")), e.pubkey)
  }

  predicate IsAddressable(kind: int) {
    30000 <= kind < 40000
  }

  predicate IsReplaceable(kind: int) {
    kind == 0 || kind == 3 || 10000 <= kind < 20000
  }

  function Address(e: Event): string {
    if IsAddressable(e.kind) then Itoa(e.kind) + ":" + MasterKey(e) + ":" + GetD(e.tags)
    else if IsReplaceable(e.kind) then Itoa(e.kind) + ":" + MasterKey(e) + ":"
    else e.id
  }
}
