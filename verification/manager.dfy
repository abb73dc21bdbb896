/** The named playlist catalog (`PlaylistManager` in linked_list_playlist.py): a dictionary
    from names to linked playlists and the name of the current one. Every playlist is
    created by the manager itself, so distinct names always hold distinct playlist objects;
    adding to one playlist therefore leaves every other one alone. */
module Catalog {
  import opened Seqs
  import opened Songs
  import opened LinkedPlaylist

  class PlaylistManager {
    var playlists: map<string, LinkedListPlaylist>
    var currentName: Option<string>

    /** The current name, when there is one, is a key; every playlist is valid; and no
        playlist object is filed under two names. */
    ghost predicate Valid()
      reads this, playlists.Values
    {
      (currentName.Some? ==> currentName.value in playlists)
      && (forall name :: name in playlists ==> playlists[name].Valid())
      && (forall a, b :: a in playlists && b in playlists && a != b ==> playlists[a] != playlists[b])
    }

    constructor ()
      ensures Valid() && playlists == map[] && currentName == None
    {
      playlists := map[];
      currentName := None;
    }

    /** `create_playlist`: refuses a name already in use; otherwise files a new empty
        playlist under it and makes it current. Every other entry keeps its playlist. */
    method CreatePlaylist(name: string) returns (ok: bool)
      requires Valid()
      modifies this
      ensures Valid()
      ensures ok <==> name !in old(playlists)
      ensures ok ==> name in playlists && fresh(playlists[name]) && playlists[name].Contents() == []
                     && playlists == old(playlists)[name := playlists[name]]
                     && currentName == Some(name)
      ensures !ok ==> unchanged(this)
    {
      if name in playlists {
        return false;
      }
      var playlist := new LinkedListPlaylist();
      playlists := playlists[name := playlist];
      currentName := Some(name);
      return true;
    }

    /** `delete_playlist`: refuses an unknown name; otherwise drops the playlist, and the
        current name with it when that was the one deleted. */
    method DeletePlaylist(name: string) returns (ok: bool)
      requires Valid()
      modifies this
      ensures Valid()
      ensures ok <==> name in old(playlists)
      ensures ok ==> playlists == old(playlists) - {name}
      ensures ok ==> currentName == if old(currentName) == Some(name) then None else old(currentName)
      ensures !ok ==> unchanged(this)
    {
      if name !in playlists {
        return false;
      }
      if currentName == Some(name) {
        currentName := None;
      }
      playlists := playlists - {name};
      return true;
    }

    /** `switch_playlist`: refuses an unknown name; otherwise makes it current. */
    method SwitchPlaylist(name: string) returns (ok: bool)
      requires Valid()
      modifies this`currentName
      ensures Valid()
      ensures ok <==> name in playlists
      ensures ok ==> currentName == Some(name)
      ensures !ok ==> currentName == old(currentName)
    {
      if name !in playlists {
        return false;
      }
      currentName := Some(name);
      return true;
    }

    /** `get_current_playlist`: None when there is no current name or it is the empty
        string (which Python treats as false), else the playlist filed under it. */
    function GetCurrentPlaylist(): (r: Option<LinkedListPlaylist>)
      reads this, playlists.Values
      requires Valid()
      ensures r.Some? <==> currentName.Some? && currentName.value != ""
      ensures r.Some? ==> r.value == playlists[currentName.value] && r.value.Valid()
    {
      if currentName.None? || currentName.value == "" then None
      else Some(playlists[currentName.value])
    }

    /** `add_song_to_current_playlist`: appends to the current playlist and to no other;
        refuses, changing nothing, when there is no current playlist. */
    method AddSongToCurrentPlaylist(song: Song) returns (ok: bool)
      requires Valid()
      modifies playlists.Values
      ensures Valid() && playlists == old(playlists) && currentName == old(currentName)
      ensures ok <==> old(GetCurrentPlaylist()).Some?
      ensures ok ==> var current := playlists[currentName.value];
                     current.Contents() == old(current.Contents()) + [song]
                     && (old(current.size) == 0 ==> current.pos == 0)
                     && (old(current.size) != 0 ==> current.cursor == old(current.cursor) && current.pos == old(current.pos))
      ensures forall other :: other in playlists && (ok ==> other != currentName.value) ==>
                unchanged(playlists[other])
    {
      var current := GetCurrentPlaylist();
      if current.None? {
        return false;
      }
      current.value.AddSongAtEnd(song);
      return true;
    }

    /** `create_playlist_from_library`: creates and selects the playlist as `CreatePlaylist`
        does, then fills it with `library[:maxSongs]` in library order. An empty library
        gives false although the new, empty playlist stays filed and selected. */
    method CreatePlaylistFromLibrary(name: string, library: seq<Song>, maxSongs: int)
      returns (ok: bool)
      requires Valid()
      modifies this
      ensures Valid()
      ensures ok <==> name !in old(playlists) && library != []
      ensures name in old(playlists) ==> unchanged(this)
      ensures name !in old(playlists) ==>
        name in playlists && fresh(playlists[name])
        && playlists == old(playlists)[name := playlists[name]] && currentName == Some(name)
        && playlists[name].Contents() == (if library == [] then [] else Take(library, maxSongs))
        && (playlists[name].Contents() != [] ==>
              playlists[name].pos == 0 && playlists[name].cursor == playlists[name].head)
    {
      ok := CreatePlaylist(name);
      if !ok {
        return;
      }
      if library == [] {
        return false;
      }
      playlists[name].AddSongsAtEnd(Take(library, maxSongs));
    }
  }
}
