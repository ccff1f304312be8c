/**
 * The two registered authorization policies (app/Policies/KategoriLaporanPolicy.php
 * and app/Policies/PelaporPolicy.php). Both are stateless decision tables:
 * viewing is open to everyone, and every mutating ability is granted exactly
 * to administrators, with a deny message per ability otherwise.
 *
 * Whether a user is an administrator (`User::isAdmin`) is not part of this
 * model, so it enters as the parameter `isAdmin`. The policies also receive
 * the record being acted on but never read it, so the decisions here take no
 * record at all.
 */
module Policies {

  datatype Ability = ViewAny | View | Create | Update | Delete | Restore | ForceDelete

  /** Everything but the two view abilities changes data. */
  predicate Mutating(a: Ability) {
    a != ViewAny && a != View
  }

  /** `Response::allow()` / `Response::deny($message)`; the bool-returning view checks read as Allow. */
  datatype Decision = Allow | Deny(message: string)

  /** The deny message of the report-category policy for each mutating ability. */
  function KategoriLaporanDenial(a: Ability): (m: string)
    requires Mutating(a)
  {
    match a
    case Create => "Akses ditolak: hanya admin yang dapat membuat Kategori Laporan."
    case Update => "Akses ditolak: hanya admin yang dapat mengubah data Kategori Laporan."
    case Delete => "Akses ditolak: hanya admin yang dapat menghapus Kategori Laporan."
    case Restore => "Akses ditolak: hanya admin yang dapat memulihkan Kategori Laporan."
    case ForceDelete => "Akses ditolak: hanya admin yang dapat menghapus Kategori Laporan secara permanen."
  }

  /** The deny message of the reporter policy for each mutating ability. */
  function PelaporDenial(a: Ability): (m: string)
    requires Mutating(a)
  {
    match a
    case Create => "Akses ditolak: hanya admin yang dapat menambah data."
    case Update => "Akses ditolak: hanya admin yang dapat mengubah data."
    case Delete => "Akses ditolak: hanya admin yang dapat menghapus data."
    case Restore => "Akses ditolak: hanya admin yang dapat memulihkan data."
    case ForceDelete => "Akses ditolak: hanya admin yang dapat menghapus data secara permanen."
  }

  /** `KategoriLaporanPolicy`: one method per ability. */
  function KategoriLaporanPolicy<U>(isAdmin: U -> bool, user: U, a: Ability): (d: Decision)
    // viewing is always allowed; a mutation is allowed exactly for administrators
    ensures d.Allow? <==> (Mutating(a) ==> isAdmin(user))
    ensures !Mutating(a) ==> d == Allow
    // a refused mutation carries that ability's message
    ensures d.Deny? ==> Mutating(a) && !isAdmin(user) && d.message == KategoriLaporanDenial(a)
  {
    if !Mutating(a) || isAdmin(user) then Allow else Deny(KategoriLaporanDenial(a))
  }

  /** `PelaporPolicy`: one method per ability. */
  function PelaporPolicy<U>(isAdmin: U -> bool, user: U, a: Ability): (d: Decision)
    ensures d.Allow? <==> (Mutating(a) ==> isAdmin(user))
    ensures !Mutating(a) ==> d == Allow
    ensures d.Deny? ==> Mutating(a) && !isAdmin(user) && d.message == PelaporDenial(a)
  {
    if !Mutating(a) || isAdmin(user) then Allow else Deny(PelaporDenial(a))
  }
}
