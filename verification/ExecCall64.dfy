/** The exec and spawn services: load the file into the staging pages, then create the process. */
module ExecCall64 {
  import opened UserLayout64
  import opened Wrappers
  import opened Processes64
  import opened ProcessFrames64
  import opened ProcessManager64
  import opened ElfLoader64
  import Elf64
  import Exec64

  /** Once the path resolved to an executable's bytes. A file that is not accepted, or a missing
      staging buffer, changes no process, page or table; any other file is created exactly as
      the model of creation says, from exactly the image the file describes. */
  method Exec(loader: ExecState, manager: ProcessManager, image: Option<seq<nat>>) returns (pid: nat)
    requires loader.Shaped() && (image.Some? ==> Elf64.Bytes(image.value)) && manager.Valid()
    requires loader.staging != manager.stack.pages
    modifies loader, loader.staging, manager, manager.stack, manager.stack.pages, manager.table
    ensures manager.Whole() && (manager.strayed || manager.Valid())
    ensures loader.staging == null || image.None? || !Elf64.Accepted(image.value) ==>
      pid == 0 && manager.Snapshot() == old(manager.Snapshot())
    ensures loader.staging != null && image.Some? && Elf64.Accepted(image.value) ==>
      && Shaped(old(manager.Snapshot())) && |Exec64.ImageOf(image.value).staged| == IMAGE_MAX
      && (manager.Snapshot(), pid) == CreateUser(old(manager.Snapshot()), Exec64.ImageOf(image.value))
  {
    hide Inv, CreateUser, Elf64.HeaderOk, Elf64.SegmentsOk, Elf64.EntryCovered, Elf64.Staged, Elf64.ImageEnd,
      Elf64.EntryOf, Elf64.WritablePages, Elf64.SegmentCount, Elf64.Bytes, Shaped;
    var ok := loader.LoadElf(image);
    if !ok {
      return 0;
    }
    var m := Image(loader.staging[..], loader.bytes, loader.entry, loader.pages, loader.writable);
    pid := manager.CreateUserImage(m);
  }
}
