/** The start-up step of index.php: when no user exists yet, an `admin`
    account and a welcome note for it are created. */
module Seeding {
  import Accounts
  import Notes
  import Text

  const AdminId := "admin"
  const AdminEmail := "admin@example.com"
  const WelcomeTitle := "Welcome to NotionNotes!"

  /** The welcome note's body, character for character as the source file
      stores it (its emoji are stored double-encoded, hence the escapes). */
  const WelcomeContent :=
    "## Welcome to Your Advanced Notes App! \U{E2}\U{153}\U{A8}\n\n"
    + "This is a sample note to get you started. You can:\n"
    + "- \U{F0}\U{178}\U{201C} Create new notes with rich text\n"
    + "- \U{F0}\U{178}\U{B7}\U{EF}\U{B8} Organize them by categories\n"
    + "- \U{F0}\U{178}\U{201D} Search through your content\n"
    + "- \U{E2}\U{AD} Mark favorites\n"
    + "- \U{F0}\U{178}\U{201C}\U{152} Pin important notes\n"
    + "- \U{F0}\U{178}\U{201C}\U{A7} Get email notifications\n"
    + "- \U{F0}\U{178}\U{17D}\U{A8} Customize themes\n"
    + "- \U{F0}\U{178}\U{201C}\U{B1} Use on any device\n\n"
    + "### Getting Started\n"
    + "1. Create your first note\n"
    + "2. Explore the settings\n"
    + "3. Enable email notifications\n"
    + "4. Customize your workspace"

  /** The seeded account, whose password is the hash of "admin123": the
      record registration would create for `admin`, notifications on. */
  function AdminUser(passwordHash: string, now: int): (u: Accounts.User)
    ensures u == Accounts.NewUser(AdminId, "admin", AdminEmail, passwordHash, now)
    ensures u.id == AdminId && u.email == AdminEmail && u.emailNotifications
  {
    Accounts.User(AdminId, "admin", AdminEmail, passwordHash, now, true)
  }

  /** The welcome note is filed under "general" and its title has no
      "urgent", so creating it sends no importance mail. */
  lemma WelcomeNoteIsNotImportant()
    ensures !Notes.IsImportant("general", WelcomeTitle)
  {
    assert |Text.Lower("general")| == 7;
    var lowered, needle := Text.Lower(WelcomeTitle), Text.Lower("urgent");
    assert needle[0] == 'u' && |needle| == 6;
    forall i | 0 <= i < |lowered|
      ensures lowered[i] != 'u'
    {
    }
    forall i: nat
      ensures !Text.OccursAt(lowered, needle, i)
    {
      if i + 6 <= |lowered| {
        assert lowered[i..i + 6][0] != needle[0];
      }
    }
  }

  /** Runs on every request: seeds the admin account and its welcome note
      when the users collection is empty, and does nothing otherwise.
      `adminHash` stands for `password_hash('admin123')`. */
  method SeedDefaultUser(accounts: Accounts.AccountStore, store: Notes.NoteStore,
                         adminHash: string, welcomeNoteId: string, now: int)
    modifies accounts, store
    ensures old(accounts.users) == [] ==>
              && accounts.users == [AdminUser(adminHash, now)]
              && store.notes == old(store.notes)
                 + [Notes.NewNote(welcomeNoteId, AdminId, WelcomeTitle, WelcomeContent, "general", now)]
    ensures old(accounts.users) != [] ==>
              accounts.users == old(accounts.users) && store.notes == old(store.notes)
    ensures old(accounts.users) == [] ==> accounts.Valid()
  {
    if accounts.users == [] {
      accounts.users := accounts.users + [AdminUser(adminHash, now)];
      var id, important := store.CreateNote(welcomeNoteId, now, AdminId, WelcomeTitle, WelcomeContent, "general");
    }
  }
}
